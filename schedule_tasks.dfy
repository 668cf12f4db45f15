/**
 * utils/schedule_tasks.py: the engagement poller with target 5. Only
 * tweepy's own exceptions are caught inside the loop; any other exception
 * ends the check at once, skipping the remaining tweets and the final
 * `log_database_state()`. The reward is the `current_reward` of
 * utils/reward_utils.py, rotated by its `shuffle_reward`.
 */
module ScheduleTasks {
  import opened Twitter
  import opened Config
  import opened RewardUtils

  /** `get_tweet(..., tweet_fields="public_metrics")`. */
  datatype MetricsLookup =
    | MetricsOk(metrics: Metrics)
    | TweepyRaised   // a tweepy.errors.TweepyException: caught and logged
    | OtherRaised    // any other exception (a KeyError on the payload, ...): not caught

  datatype BotTweet = BotTweet(id: TweetId, metrics: MetricsLookup)

  datatype Timeline = Tweets(tweets: seq<BotTweet>) | TimelineRaised

  /** The effects of the check on the world, in order. `distribute_rewards`
      is only named here: utils/reward_utils.py does not define it. */
  datatype Call =
    | MetricsCall(tweetId: TweetId)
    | DistributeCall(tweetId: TweetId)
    | ShuffleCall(item: string)
    | LogStateCall

  /** State of the check, with `aborted` set once an uncaught exception left the loop. */
  datatype Run = Run(currentReward: Option<string>, goalAchieved: set<TweetId>, calls: seq<Call>, aborted: bool)

  datatype Outcome = Finished | Raised

  predicate Reaches(t: BotTweet)
  {
    t.metrics.MetricsOk? && TotalEngagements(t.metrics.metrics) >= ENGAGEMENT_TOTAL_TARGET
  }

  function Reached(tweets: seq<BotTweet>): set<TweetId>
  {
    set t | t in tweets && Reaches(t) :: t.id
  }
  /** One iteration of the loop, `draw` being what shuffle_reward would pick.
      Once an exception has left the loop nothing changes; otherwise an
      unflagged tweet is fetched (at most three calls), flagged exactly when
      it reaches the target, and a non-tweepy exception ends the loop. */
  function CheckTweet(r: Run, t: BotTweet, draw: string): (q: Run)
    ensures r.aborted ==> q == r
    ensures q.goalAchieved ==
              r.goalAchieved + (if !r.aborted && t.id !in r.goalAchieved && Reaches(t) then {t.id} else {})
    ensures q.aborted <==> r.aborted || (t.id !in r.goalAchieved && t.metrics.OtherRaised?)
    ensures r.calls <= q.calls && |q.calls| <= |r.calls| + 3
  {
    if r.aborted || t.id in r.goalAchieved then r
    else match t.metrics
      case OtherRaised => r.(calls := r.calls + [MetricsCall(t.id)], aborted := true)
      case TweepyRaised => r.(calls := r.calls + [MetricsCall(t.id)])
      case MetricsOk(m) =>
        if TotalEngagements(m) >= ENGAGEMENT_TOTAL_TARGET then
          Run(Some(draw), r.goalAchieved + {t.id},
              r.calls + [MetricsCall(t.id), DistributeCall(t.id), ShuffleCall(draw)], false)
        else r.(calls := r.calls + [MetricsCall(t.id)])
  }

  /** The loop over a timeline; it makes at most three calls per tweet. */
  function CheckAll(r: Run, tweets: seq<BotTweet>, draws: seq<string>): (q: Run)
    requires |draws| == |tweets|
    ensures |q.calls| <= |r.calls| + 3 * |tweets|
    decreases |tweets|
  {
    if tweets == [] then r
    else
      var n := |tweets| - 1;
      CheckTweet(CheckAll(r, tweets[..n], draws[..n]), tweets[n], draws[n])
  }

  /** The loop's step: checking one more tweet extends the fold by one. */
  lemma CheckAllPush(r: Run, tweets: seq<BotTweet>, draws: seq<string>, d: string)
    requires |draws| < |tweets|
    ensures CheckAll(r, tweets[..|draws| + 1], draws + [d])
            == CheckTweet(CheckAll(r, tweets[..|draws|], draws), tweets[|draws|], d)
  {
    var i := |draws|;
    assert tweets[..i + 1][..i] == tweets[..i];
    assert (draws + [d])[..i] == draws;
  }

  /** The whole of check_engagements: the loop, then log_database_state
      unless the loop was left by an exception. log_database_state runs
      outside any try, so when it raises (`logRaises`) check_engagements
      raises too; `aborted` of the result says whether it raised. */
  function Check(r: Run, tweets: seq<BotTweet>, draws: seq<string>, logRaises: bool): (e: Run)
    requires |draws| == |tweets|
    ensures |e.calls| <= |r.calls| + 3 * |tweets| + 1
    ensures e.goalAchieved == CheckAll(r, tweets, draws).goalAchieved
  {
    var l := CheckAll(r, tweets, draws);
    if l.aborted then l else l.(calls := l.calls + [LogStateCall], aborted := logRaises)
  }

  /** A tweet is flagged exactly when its engagement reaches 5, the set only
      grows, and a tweet whose metrics raised a non-tweepy exception ends the
      loop: only the tweets before it are considered, and it stays unflagged. */
  lemma {:induction false} CheckAllFlags(r: Run, tweets: seq<BotTweet>, draws: seq<string>)
    requires |draws| == |tweets| && !r.aborted
    ensures r.goalAchieved <= CheckAll(r, tweets, draws).goalAchieved
    ensures !CheckAll(r, tweets, draws).aborted ==>
              CheckAll(r, tweets, draws).goalAchieved == r.goalAchieved + Reached(tweets)
    ensures !CheckAll(r, tweets, draws).aborted ==>
              forall k :: 0 <= k < |tweets| && tweets[k].metrics.OtherRaised? ==>
                tweets[k].id in CheckAll(r, tweets, draws).goalAchieved
    ensures CheckAll(r, tweets, draws).aborted ==>
              exists k :: 0 <= k < |tweets| && tweets[k].metrics.OtherRaised?
                && tweets[k].id !in CheckAll(r, tweets, draws).goalAchieved
                && CheckAll(r, tweets, draws).goalAchieved == r.goalAchieved + Reached(tweets[..k])
    decreases |tweets|
  {
    if tweets != [] {
      var n := |tweets| - 1;
      var m := CheckAll(r, tweets[..n], draws[..n]);
      CheckAllFlags(r, tweets[..n], draws[..n]);
      var t := tweets[n];
      assert tweets == tweets[..n] + [t];
      assert Reached(tweets) == Reached(tweets[..n]) + (if Reaches(t) then {t.id} else {});
      if m.aborted {
        var k :| 0 <= k < n && tweets[..n][k].metrics.OtherRaised?
                 && tweets[..n][k].id !in m.goalAchieved
                 && m.goalAchieved == r.goalAchieved + Reached(tweets[..n][..k]);
        assert tweets[..n][..k] == tweets[..k];
      } else if t.id !in m.goalAchieved && t.metrics.OtherRaised? {
        assert CheckAll(r, tweets, draws).goalAchieved == r.goalAchieved + Reached(tweets[..n]);
      } else {
        forall k | 0 <= k < |tweets| && tweets[k].metrics.OtherRaised?
          ensures tweets[k].id in CheckAll(r, tweets, draws).goalAchieved
        {
          if k < n {
            assert tweets[k] == tweets[..n][k];
          }
        }
      }
    }
  }

  /** Every distribution is directly followed by one shuffle, and every
      shuffle directly follows a distribution. */
  predicate Paired(xs: seq<Call>)
  {
    && (forall i :: 0 <= i < |xs| && xs[i].DistributeCall? ==> i + 1 < |xs| && xs[i + 1].ShuffleCall?)
    && (forall i :: 0 <= i < |xs| && xs[i].ShuffleCall? ==> 0 < i && xs[i - 1].DistributeCall?)
  }

  /** The tweets that a sequence of calls distributes rewards for. */
  function DistributedIds(xs: seq<Call>): set<TweetId>
  {
    set i | 0 <= i < |xs| && xs[i].DistributeCall? :: xs[i].tweetId
  }

  /** No tweet gets two distributions. */
  predicate DistributedOnce(xs: seq<Call>)
  {
    forall i, j :: 0 <= i < j < |xs| && xs[i].DistributeCall? && xs[j].DistributeCall? ==>
      xs[i].tweetId != xs[j].tweetId
  }

  /** No metrics fetch and no distribution concerns a tweet of `flagged`,
      and log_database_state is not among the calls. */
  predicate AvoidsInLoop(xs: seq<Call>, flagged: set<TweetId>)
  {
    forall i :: 0 <= i < |xs| ==>
      !xs[i].LogStateCall? && (xs[i].MetricsCall? || xs[i].DistributeCall? ==> xs[i].tweetId !in flagged)
  }

  lemma ConcatLoopCalls(xs: seq<Call>, ys: seq<Call>, flagged: set<TweetId>)
    requires Paired(xs) && Paired(ys)
    requires DistributedOnce(xs) && DistributedOnce(ys) && DistributedIds(xs) !! DistributedIds(ys)
    requires AvoidsInLoop(xs, flagged) && AvoidsInLoop(ys, flagged)
    ensures Paired(xs + ys) && DistributedOnce(xs + ys) && AvoidsInLoop(xs + ys, flagged)
    ensures DistributedIds(xs + ys) == DistributedIds(xs) + DistributedIds(ys)
  {
    var zs := xs + ys;
    forall i, j | 0 <= i < j < |zs| && zs[i].DistributeCall? && zs[j].DistributeCall?
      ensures zs[i].tweetId != zs[j].tweetId
    {
      if i < |xs| && |xs| <= j {
        assert zs[i].tweetId in DistributedIds(xs);
        assert zs[j] == ys[j - |xs|];
        assert zs[j].tweetId in DistributedIds(ys);
      } else if |xs| <= i {
        assert zs[i] == ys[i - |xs|] && zs[j] == ys[j - |xs|];
      }
    }
    forall id | id in DistributedIds(xs) ensures id in DistributedIds(zs) {
      var j :| 0 <= j < |xs| && xs[j].DistributeCall? && xs[j].tweetId == id;
      assert zs[j] == xs[j];
    }
    forall id | id in DistributedIds(ys) ensures id in DistributedIds(zs) {
      var j :| 0 <= j < |ys| && ys[j].DistributeCall? && ys[j].tweetId == id;
      assert zs[|xs| + j] == ys[j];
    }
    forall id | id in DistributedIds(zs) ensures id in DistributedIds(xs) + DistributedIds(ys) {
      var j :| 0 <= j < |zs| && zs[j].DistributeCall? && zs[j].tweetId == id;
      if |xs| <= j { assert zs[j] == ys[j - |xs|]; }
    }
  }

  /** The flagged set never shrinks and the calls are only appended to,
      whatever the state. */
  lemma {:induction false} MonotoneFlags(r: Run, tweets: seq<BotTweet>, draws: seq<string>)
    requires |draws| == |tweets|
    ensures r.goalAchieved <= CheckAll(r, tweets, draws).goalAchieved
    ensures r.calls <= CheckAll(r, tweets, draws).calls
    decreases |tweets|
  {
    if tweets != [] {
      var n := |tweets| - 1;
      MonotoneFlags(r, tweets[..n], draws[..n]);
    }
  }

  /** The calls the loop appends. */
  ghost function LoopCalls(r: Run, tweets: seq<BotTweet>, draws: seq<string>): seq<Call>
    requires |draws| == |tweets|
  {
    MonotoneFlags(r, tweets, draws);
    CheckAll(r, tweets, draws).calls[|r.calls|..]
  }

  /** The calls one iteration appends. */
  lemma CheckTweetCalls(m: Run, t: BotTweet, d: string)
    ensures var ys := CheckTweet(m, t, d).calls[|m.calls|..];
      && AvoidsInLoop(ys, m.goalAchieved) && Paired(ys) && DistributedOnce(ys)
      && DistributedIds(ys) == CheckTweet(m, t, d).goalAchieved - m.goalAchieved
      && (CheckTweet(m, t, d).aborted && !m.aborted ==> ys != [])
  {
    var q := CheckTweet(m, t, d);
    var ys := q.calls[|m.calls|..];
    if !m.aborted && t.id !in m.goalAchieved && Reaches(t) {
      assert ys == [MetricsCall(t.id), DistributeCall(t.id), ShuffleCall(d)];
      assert DistributedIds(ys) == {t.id} by {
        assert ys[1].DistributeCall? && ys[1].tweetId == t.id;
      }
    } else {
      assert ys == [] || ys == [MetricsCall(t.id)];
      assert DistributedIds(ys) == {};
    }
  }

  /** The calls of the loop: none fetches or distributes for a tweet flagged
      before it, none logs the database state, every distribution is
      directly followed by one shuffle and every shuffle directly follows a
      distribution, no tweet is distributed twice, and the distributed
      tweets are exactly the newly flagged ones. An uncaught exception is
      raised by a call the loop made. */
  lemma {:induction false} CheckAllCalls(r: Run, tweets: seq<BotTweet>, draws: seq<string>)
    requires |draws| == |tweets|
    ensures CheckAll(r, tweets, draws).calls == r.calls + LoopCalls(r, tweets, draws)
    ensures AvoidsInLoop(LoopCalls(r, tweets, draws), r.goalAchieved)
    ensures Paired(LoopCalls(r, tweets, draws))
    ensures DistributedOnce(LoopCalls(r, tweets, draws))
    ensures DistributedIds(LoopCalls(r, tweets, draws)) == CheckAll(r, tweets, draws).goalAchieved - r.goalAchieved
    ensures CheckAll(r, tweets, draws).aborted && !r.aborted ==> LoopCalls(r, tweets, draws) != []
    decreases |tweets|
  {
    MonotoneFlags(r, tweets, draws);
    if tweets != [] {
      var n := |tweets| - 1;
      var m := CheckAll(r, tweets[..n], draws[..n]);
      CheckAllCalls(r, tweets[..n], draws[..n]);
      MonotoneFlags(r, tweets[..n], draws[..n]);
      var xs := LoopCalls(r, tweets[..n], draws[..n]);
      CheckAllCallsStep(r, m, tweets[n], draws[n], xs);
      var q := CheckTweet(m, tweets[n], draws[n]);
      assert q == CheckAll(r, tweets, draws);
      assert LoopCalls(r, tweets, draws) == xs + q.calls[|m.calls|..];
    }
  }

  /** One more iteration after the calls `xs` that took the run from `r` to
      `m` keeps what CheckAllCalls states about the calls. */
  lemma CheckAllCallsStep(r: Run, m: Run, t: BotTweet, d: string, xs: seq<Call>)
    requires r.goalAchieved <= m.goalAchieved && m.calls == r.calls + xs
    requires Paired(xs) && DistributedOnce(xs) && AvoidsInLoop(xs, r.goalAchieved)
    requires DistributedIds(xs) == m.goalAchieved - r.goalAchieved
    requires m.aborted && !r.aborted ==> xs != []
    ensures var q := CheckTweet(m, t, d);
      var zs := xs + q.calls[|m.calls|..];
      && q.calls == r.calls + zs
      && Paired(zs) && DistributedOnce(zs) && AvoidsInLoop(zs, r.goalAchieved)
      && DistributedIds(zs) == q.goalAchieved - r.goalAchieved
      && (q.aborted && !r.aborted ==> zs != [])
  {
    var q := CheckTweet(m, t, d);
    CheckTweetCalls(m, t, d);
    var ys := q.calls[|m.calls|..];
    assert q.calls == r.calls + (xs + ys);
    LoopCallsStep(xs, ys, r.goalAchieved, m.goalAchieved, q.goalAchieved);
  }

  /** The calls of two consecutive stretches of the loop, the first taking
      the flagged set from `a` to `b` and the second from `b` to `c`. */
  lemma LoopCallsStep(xs: seq<Call>, ys: seq<Call>, a: set<TweetId>, b: set<TweetId>, c: set<TweetId>)
    requires a <= b <= c
    requires Paired(xs) && DistributedOnce(xs) && AvoidsInLoop(xs, a) && DistributedIds(xs) == b - a
    requires Paired(ys) && DistributedOnce(ys) && AvoidsInLoop(ys, b) && DistributedIds(ys) == c - b
    ensures Paired(xs + ys) && DistributedOnce(xs + ys) && AvoidsInLoop(xs + ys, a)
    ensures DistributedIds(xs + ys) == c - a
  {
    ConcatLoopCalls(xs, ys, a);
  }

  /** log_database_state runs exactly when no uncaught exception left the
      loop, such an exception comes from an unflagged tweet, and the check
      raises exactly when the loop or log_database_state does. */
  lemma LogStateExactlyWhenFinished(r: Run, tweets: seq<BotTweet>, draws: seq<string>, logRaises: bool)
    requires |draws| == |tweets| && !r.aborted
    ensures var l := CheckAll(r, tweets, draws);
      var e := Check(r, tweets, draws, logRaises);
      && (!l.aborted <==> (|e.calls| > 0 && e.calls[|e.calls| - 1] == LogStateCall))
      && (l.aborted <==> exists k :: 0 <= k < |tweets| && tweets[k].metrics.OtherRaised?
                                      && tweets[k].id !in e.goalAchieved)
      && (e.aborted <==> l.aborted || logRaises)
  {
    var l := CheckAll(r, tweets, draws);
    CheckAllCalls(r, tweets, draws);
    CheckAllFlags(r, tweets, draws);
    if l.aborted {
      var ys := LoopCalls(r, tweets, draws);
      assert l.calls[|l.calls| - 1] == ys[|ys| - 1];
    }
  }

  class SchedulePoller {
    var goalAchieved: set<TweetId>
    var calls: seq<Call>
    const ledger: RewardLedger

    function State(): Run
      reads this, ledger
    {
      Run(ledger.currentReward, goalAchieved, calls, false)
    }

    /** Module load: an empty `goal_achieved_tweets`. */
    constructor (l: RewardLedger)
      ensures ledger == l && goalAchieved == {} && calls == []
    {
      ledger := l;
      goalAchieved := {};
      calls := [];
    }

    /** check_engagements() over the timeline the platform returns;
        `logRaises` says whether log_database_state raises. */
    method CheckEngagements(timeline: Timeline, logRaises: bool) returns (outcome: Outcome, draws: seq<string>)
      modifies this, ledger
      ensures ledger.table == old(ledger.table)
      ensures timeline.TimelineRaised? ==> outcome == Raised && State() == old(State()) && draws == []
      ensures timeline.Tweets? ==>
                && |draws| == |timeline.tweets|
                && var e := Check(old(State()), timeline.tweets, draws, logRaises);
                && State() == e.(aborted := false)
                && outcome == (if e.aborted then Raised else Finished)
      ensures forall i :: 0 <= i < |draws| ==> draws[i] in ITEM_OPTIONS
    {
      draws := [];
      if timeline.TimelineRaised? {
        return Raised, draws;
      }
      var tweets := timeline.tweets;
      ghost var start := State();
      var i := 0;
      var aborted := false;
      while i < |tweets|
        invariant 0 <= i <= |tweets| && |draws| == i
        invariant forall j :: 0 <= j < i ==> draws[j] in ITEM_OPTIONS
        invariant ledger.table == old(ledger.table)
        invariant State().(aborted := aborted) == CheckAll(start, tweets[..i], draws)
      {
        var draw: string;
        aborted, draw := CheckTweetStep(tweets[i], aborted);
        CheckAllPush(start, tweets, draws, draw);
        draws := draws + [draw];
        i := i + 1;
      }
      assert tweets[..i] == tweets;
      if aborted {
        outcome := Raised;
      } else {
        calls := calls + [LogStateCall];
        outcome := if logRaises then Raised else Finished;
      }
    }

    /** One iteration of the loop of check_engagements, once no exception
        has left it yet (`aborted` false); `draw` is what shuffle_reward drew,
        or a placeholder catalogue item when it was not called. */
    method CheckTweetStep(t: BotTweet, aborted: bool) returns (abortedAfter: bool, draw: string)
      modifies this, ledger
      ensures ledger.table == old(ledger.table)
      ensures State().(aborted := abortedAfter) == CheckTweet(old(State()).(aborted := aborted), t, draw)
      ensures draw in ITEM_OPTIONS
    {
      assert ITEM_OPTIONS[0] in ITEM_OPTIONS;
      abortedAfter, draw := aborted, ITEM_OPTIONS[0];
      if !aborted && t.id !in goalAchieved {
        calls := calls + [MetricsCall(t.id)];
        match t.metrics {
          case OtherRaised =>
            abortedAfter := true;
          case TweepyRaised =>
          case MetricsOk(m) =>
            if TotalEngagements(m) >= ENGAGEMENT_TOTAL_TARGET {
              goalAchieved := goalAchieved + {t.id};
              calls := calls + [DistributeCall(t.id)];
              ledger.ShuffleReward();
              draw := ledger.currentReward.value;
              calls := calls + [ShuffleCall(draw)];
            }
        }
      }
    }
  }
}
