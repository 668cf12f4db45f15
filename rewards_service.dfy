/**
 * utils/rewards_service.py: the engagement poller with target 3. The
 * module-level `current_reward` (always a catalogue member) and
 * `goal_achieved_tweets` become fields of one object; the inventory it
 * credits is the table of utils/item_award.py. The platform's answers for
 * each of the bot's recent tweets are part of the input, and the external
 * calls the poller makes are recorded, in order, in `calls`.
 */
module RewardsService {
  import opened Twitter
  import opened Config
  import opened ItemAward

  /** `ENGAGEMENT_TOTAL_TARGET` of this module. */
  const TARGET: nat := 3

  /** `get_tweet(..., tweet_fields="public_metrics")`: the metrics, or an exception. */
  datatype MetricsLookup = MetricsOk(metrics: Metrics) | MetricsRaised

  /** `get_tweet(..., expansions="author_id")`: the usernames under `includes["users"]`, or an exception. */
  datatype UsersLookup = Users(usernames: seq<string>) | UsersRaised

  /** One of the bot's recent tweets, with what the platform answers about it. */
  datatype BotTweet = BotTweet(id: TweetId, metrics: MetricsLookup, engaged: UsersLookup)

  /** `get_users_tweets(...).data`: the tweets, or an exception (also when `data` is None). */
  datatype Timeline = Tweets(tweets: seq<BotTweet>) | TimelineRaised

  /** The calls of the poller that have an effect on the world or on its state. */
  datatype Call =
    | MetricsCall(tweetId: TweetId)
    | DistributeCall(tweetId: TweetId, item: string)
    | ShuffleCall(item: string)

  /** The poller's whole state. */
  datatype Service = Service(currentReward: string, goalAchieved: set<TweetId>, rows: Rows, calls: seq<Call>)

  datatype Outcome = Finished | Raised

  /** Tweets whose engagement reaches the target once their metrics are read. */
  predicate Reaches(t: BotTweet)
  {
    t.metrics.MetricsOk? && TotalEngagements(t.metrics.metrics) >= TARGET
  }

  /** The tweets of a timeline that reach the target. */
  function Reached(tweets: seq<BotTweet>): set<TweetId>
  {
    set t | t in tweets && Reaches(t) :: t.id
  }

  /** Every user in `users` gets one more `item`; nothing else changes. */
  function AwardAll(rows: Rows, users: set<string>, item: string): (r: Rows)
    ensures forall u :: Quantity(r, Key(u, item)) == Quantity(rows, Key(u, item)) + (if u in users then 1 else 0)
    ensures forall k: Key :: k.item != item ==> Quantity(r, k) == Quantity(rows, k)
    ensures rows.Keys <= r.Keys
  {
    map k | k in rows.Keys + (set u | u in users :: Key(u, item)) ::
      if k.item == item && k.username in users then Quantity(rows, k) + 1 else rows[k]
  }

  /** What distribute_rewards does to the inventory: every distinct engaged
      username is awarded `item` once; a failed lookup awards nobody. */
  function Distributed(rows: Rows, engaged: UsersLookup, item: string): Rows
  {
    match engaged
    case UsersRaised => rows
    case Users(us) => AwardAll(rows, (set u | u in us), item)
  }

  /** One iteration of the loop of check_engagements, given the reward that
      shuffle_reward would draw there. */
  function CheckTweet(s: Service, t: BotTweet, draw: string): (q: Service)
    ensures t.id in s.goalAchieved ==> q == s
    ensures q.goalAchieved == s.goalAchieved + (if t.id !in s.goalAchieved && Reaches(t) then {t.id} else {})
    ensures s.calls <= q.calls && |q.calls| <= |s.calls| + 3
  {
    if t.id in s.goalAchieved then s
    else if Reaches(t) then
      Service(draw, s.goalAchieved + {t.id}, Distributed(s.rows, t.engaged, s.currentReward),
              s.calls + [MetricsCall(t.id), DistributeCall(t.id, s.currentReward), ShuffleCall(draw)])
    else s.(calls := s.calls + [MetricsCall(t.id)])
  }

  /** The loop over a timeline, `draws[i]` being the reward drawn at
      position i; it makes at most three calls per tweet. */
  function CheckAll(s: Service, tweets: seq<BotTweet>, draws: seq<string>): (q: Service)
    requires |draws| == |tweets|
    ensures |q.calls| <= |s.calls| + 3 * |tweets|
    decreases |tweets|
  {
    if tweets == [] then s
    else
      var n := |tweets| - 1;
      CheckTweet(CheckAll(s, tweets[..n], draws[..n]), tweets[n], draws[n])
  }

  /** The loop's step: checking one more tweet extends the fold by one. */
  lemma CheckAllPush(s: Service, tweets: seq<BotTweet>, draws: seq<string>, d: string)
    requires |draws| < |tweets|
    ensures CheckAll(s, tweets[..|draws| + 1], draws + [d])
            == CheckTweet(CheckAll(s, tweets[..|draws|], draws), tweets[|draws|], d)
  {
    var i := |draws|;
    assert tweets[..i + 1][..i] == tweets[..i];
    assert (draws + [d])[..i] == draws;
  }

  /** After a check, exactly the tweets already flagged and those whose
      engagement reached the target are flagged: the set only grows, a tweet
      whose metrics could not be read stays unflagged, and the loop goes on
      to the later tweets. */
  lemma {:induction false} CheckAllFlagsExactly(s: Service, tweets: seq<BotTweet>, draws: seq<string>)
    requires |draws| == |tweets|
    ensures CheckAll(s, tweets, draws).goalAchieved == s.goalAchieved + Reached(tweets)
    decreases |tweets|
  {
    if tweets != [] {
      var n := |tweets| - 1;
      CheckAllFlagsExactly(s, tweets[..n], draws[..n]);
      assert tweets == tweets[..n] + [tweets[n]];
      assert Reached(tweets) == Reached(tweets[..n]) + (if Reaches(tweets[n]) then {tweets[n].id} else {});
    }
  }

  /** The current reward stays in the catalogue when every draw comes from it. */
  lemma {:induction false} CheckAllKeepsRewardInCatalogue(s: Service, tweets: seq<BotTweet>, draws: seq<string>)
    requires |draws| == |tweets|
    requires s.currentReward in ITEM_OPTIONS
    requires forall i :: 0 <= i < |draws| ==> draws[i] in ITEM_OPTIONS
    ensures CheckAll(s, tweets, draws).currentReward in ITEM_OPTIONS
    decreases |tweets|
  {
    if tweets != [] {
      var n := |tweets| - 1;
      CheckAllKeepsRewardInCatalogue(s, tweets[..n], draws[..n]);
    }
  }

  /** Every distribution is directly followed by one shuffle, and every
      shuffle directly follows a distribution. */
  predicate Paired(xs: seq<Call>)
  {
    && (forall i :: 0 <= i < |xs| && xs[i].DistributeCall? ==> i + 1 < |xs| && xs[i + 1].ShuffleCall?)
    && (forall i :: 0 <= i < |xs| && xs[i].ShuffleCall? ==> 0 < i && xs[i - 1].DistributeCall?)
  }

  /** The tweets that a sequence of calls distributes rewards for. */
  function DistributedIds(xs: seq<Call>): set<TweetId>
  {
    set i | 0 <= i < |xs| && xs[i].DistributeCall? :: xs[i].tweetId
  }

  /** No tweet gets two distributions. */
  predicate DistributedOnce(xs: seq<Call>)
  {
    forall i, j :: 0 <= i < j < |xs| && xs[i].DistributeCall? && xs[j].DistributeCall? ==>
      xs[i].tweetId != xs[j].tweetId
  }

  /** No metrics fetch and no distribution concerns a tweet of `flagged`. */
  predicate Avoids(xs: seq<Call>, flagged: set<TweetId>)
  {
    forall i :: 0 <= i < |xs| && !xs[i].ShuffleCall? ==> xs[i].tweetId !in flagged
  }

  lemma ConcatCalls(xs: seq<Call>, ys: seq<Call>, flagged: set<TweetId>)
    requires Paired(xs) && Paired(ys)
    requires DistributedOnce(xs) && DistributedOnce(ys) && DistributedIds(xs) !! DistributedIds(ys)
    requires Avoids(xs, flagged) && Avoids(ys, flagged)
    ensures Paired(xs + ys) && DistributedOnce(xs + ys) && Avoids(xs + ys, flagged)
    ensures DistributedIds(xs + ys) == DistributedIds(xs) + DistributedIds(ys)
  {
    var zs := xs + ys;
    forall i, j | 0 <= i < j < |zs| && zs[i].DistributeCall? && zs[j].DistributeCall?
      ensures zs[i].tweetId != zs[j].tweetId
    {
      if i < |xs| && |xs| <= j {
        assert zs[i].tweetId in DistributedIds(xs);
        assert zs[j] == ys[j - |xs|];
        assert zs[j].tweetId in DistributedIds(ys);
      } else if |xs| <= i {
        assert zs[i] == ys[i - |xs|] && zs[j] == ys[j - |xs|];
      }
    }
    forall id | id in DistributedIds(xs) ensures id in DistributedIds(zs) {
      var j :| 0 <= j < |xs| && xs[j].DistributeCall? && xs[j].tweetId == id;
      assert zs[j] == xs[j];
    }
    forall id | id in DistributedIds(ys) ensures id in DistributedIds(zs) {
      var j :| 0 <= j < |ys| && ys[j].DistributeCall? && ys[j].tweetId == id;
      assert zs[|xs| + j] == ys[j];
    }
    forall id | id in DistributedIds(zs) ensures id in DistributedIds(xs) + DistributedIds(ys) {
      var j :| 0 <= j < |zs| && zs[j].DistributeCall? && zs[j].tweetId == id;
      if |xs| <= j { assert zs[j] == ys[j - |xs|]; }
    }
  }

  /** A check only appends to the calls and only adds to the flagged set. */
  lemma {:induction false} CheckAllExtends(s: Service, tweets: seq<BotTweet>, draws: seq<string>)
    requires |draws| == |tweets|
    ensures s.calls <= CheckAll(s, tweets, draws).calls
    ensures s.goalAchieved <= CheckAll(s, tweets, draws).goalAchieved
    decreases |tweets|
  {
    if tweets != [] {
      var n := |tweets| - 1;
      CheckAllExtends(s, tweets[..n], draws[..n]);
    }
  }

  /** The calls one check makes. */
  ghost function NewCalls(s: Service, tweets: seq<BotTweet>, draws: seq<string>): seq<Call>
    requires |draws| == |tweets|
  {
    CheckAllExtends(s, tweets, draws);
    CheckAll(s, tweets, draws).calls[|s.calls|..]
  }

  /** The calls one iteration appends. */
  lemma CheckTweetCalls(m: Service, t: BotTweet, d: string)
    ensures m.goalAchieved <= CheckTweet(m, t, d).goalAchieved
    ensures m.calls <= CheckTweet(m, t, d).calls
    ensures var ys := CheckTweet(m, t, d).calls[|m.calls|..];
      && Avoids(ys, m.goalAchieved) && Paired(ys) && DistributedOnce(ys)
      && DistributedIds(ys) == CheckTweet(m, t, d).goalAchieved - m.goalAchieved
  {
    var r := CheckTweet(m, t, d);
    var ys := r.calls[|m.calls|..];
    if t.id !in m.goalAchieved && Reaches(t) {
      assert ys == [MetricsCall(t.id), DistributeCall(t.id, m.currentReward), ShuffleCall(d)];
      assert DistributedIds(ys) == {t.id} by {
        assert ys[1].DistributeCall? && ys[1].tweetId == t.id;
      }
    } else {
      assert ys == [] || ys == [MetricsCall(t.id)];
      assert DistributedIds(ys) == {};
    }
  }

  /** The calls of one check: none concerns a tweet flagged before it; every
      distribution is directly followed by one shuffle and every shuffle
      directly follows a distribution; no tweet is distributed twice, and
      the distributed tweets are exactly the newly flagged ones. */
  lemma {:induction false} CheckAllCalls(s: Service, tweets: seq<BotTweet>, draws: seq<string>)
    requires |draws| == |tweets|
    ensures CheckAll(s, tweets, draws).calls == s.calls + NewCalls(s, tweets, draws)
    ensures Avoids(NewCalls(s, tweets, draws), s.goalAchieved)
    ensures Paired(NewCalls(s, tweets, draws))
    ensures DistributedOnce(NewCalls(s, tweets, draws))
    ensures DistributedIds(NewCalls(s, tweets, draws)) == CheckAll(s, tweets, draws).goalAchieved - s.goalAchieved
    decreases |tweets|
  {
    CheckAllExtends(s, tweets, draws);
    if tweets != [] {
      var n := |tweets| - 1;
      var m := CheckAll(s, tweets[..n], draws[..n]);
      CheckAllCalls(s, tweets[..n], draws[..n]);
      CheckAllExtends(s, tweets[..n], draws[..n]);
      var r := CheckTweet(m, tweets[n], draws[n]);
      CheckTweetCalls(m, tweets[n], draws[n]);
      var xs := NewCalls(s, tweets[..n], draws[..n]);
      var ys := r.calls[|m.calls|..];
      assert r.calls == s.calls + (xs + ys);
      assert Avoids(ys, s.goalAchieved);
      ConcatCalls(xs, ys, s.goalAchieved);
    }
  }

  /** The inventory of engagements.db, shared with utils/item_award.py. */
  class Poller {
    var currentReward: string
    var goalAchieved: set<TweetId>
    var calls: seq<Call>
    const inventory: Inventory

    function State(): Service
      reads this, inventory
    {
      Service(currentReward, goalAchieved, inventory.rows, calls)
    }

    /** Module load: `current_reward = random.choice(item_options)` and an
        empty `goal_achieved_tweets`. */
    constructor (inv: Inventory)
      ensures inventory == inv && currentReward in ITEM_OPTIONS
      ensures goalAchieved == {} && calls == []
    {
      assert ITEM_OPTIONS[0] in ITEM_OPTIONS;
      var item :| item in ITEM_OPTIONS;
      currentReward := item;
      goalAchieved := {};
      calls := [];
      inventory := inv;
    }

    /** shuffle_reward: any catalogue member ends up current. */
    method ShuffleReward() returns (drawn: string)
      modifies this
      ensures drawn in ITEM_OPTIONS && currentReward == drawn
      ensures goalAchieved == old(goalAchieved) && calls == old(calls) + [ShuffleCall(drawn)]
    {
      assert ITEM_OPTIONS[0] in ITEM_OPTIONS;
      drawn :| drawn in ITEM_OPTIONS;
      currentReward := drawn;
      calls := calls + [ShuffleCall(drawn)];
    }

    /** distribute_rewards(tweet_id, bot): collect the engaged usernames in a
        set, then award the current reward to each of them; an exception of
        the lookup is caught, so the call never raises. */
    method DistributeRewards(tweetId: TweetId, engaged: UsersLookup)
      modifies this, inventory
      ensures inventory.rows == Distributed(old(inventory.rows), engaged, currentReward)
      ensures currentReward == old(currentReward) && goalAchieved == old(goalAchieved)
      ensures calls == old(calls) + [DistributeCall(tweetId, currentReward)]
    {
      var item := currentReward;
      calls := calls + [DistributeCall(tweetId, item)];
      if engaged.UsersRaised? {
        return;
      }
      var engagedUsers := EngagedUsernames(engaged.usernames);
      AwardEach(inventory, engagedUsers, item);
    }

    /** check_engagements(bot) over the timeline the platform returns.
        `draws` are the rewards shuffle_reward drew, position by position. */
    method CheckEngagements(timeline: Timeline) returns (outcome: Outcome, draws: seq<string>)
      requires currentReward in ITEM_OPTIONS
      modifies this, inventory
      ensures outcome == if timeline.TimelineRaised? then Raised else Finished
      ensures timeline.TimelineRaised? ==> State() == old(State()) && draws == []
      ensures timeline.Tweets? ==>
                |draws| == |timeline.tweets| && State() == CheckAll(old(State()), timeline.tweets, draws)
      ensures forall i :: 0 <= i < |draws| ==> draws[i] in ITEM_OPTIONS
      ensures currentReward in ITEM_OPTIONS
    {
      draws := [];
      if timeline.TimelineRaised? {
        return Raised, draws;
      }
      var tweets := timeline.tweets;
      ghost var start := State();
      var i := 0;
      while i < |tweets|
        invariant 0 <= i <= |tweets| && |draws| == i
        invariant forall j :: 0 <= j < i ==> draws[j] in ITEM_OPTIONS
        invariant currentReward in ITEM_OPTIONS
        invariant State() == CheckAll(start, tweets[..i], draws)
      {
        var draw := CheckTweetStep(tweets[i]);
        CheckAllPush(start, tweets, draws, draw);
        draws := draws + [draw];
        i := i + 1;
      }
      assert tweets[..i] == tweets;
      return Finished, draws;
    }

    /** One iteration of the loop of check_engagements; `draw` is the reward
        shuffle_reward drew, or the unchanged current reward. */
    method CheckTweetStep(t: BotTweet) returns (draw: string)
      requires currentReward in ITEM_OPTIONS
      modifies this, inventory
      ensures State() == CheckTweet(old(State()), t, draw)
      ensures draw in ITEM_OPTIONS && currentReward in ITEM_OPTIONS
    {
      draw := currentReward;
      if t.id !in goalAchieved {
        calls := calls + [MetricsCall(t.id)];
        if t.metrics.MetricsOk? && TotalEngagements(t.metrics.metrics) >= TARGET {
          goalAchieved := goalAchieved + {t.id};
          DistributeRewards(t.id, t.engaged);
          draw := ShuffleReward();
        }
      }
    }

    /** distribute_rewards_for_goals(): its first iteration calls the
        two-parameter distribute_rewards with one argument, which raises a
        TypeError before any shuffle or removal. So it is a no-op on an empty
        set, and raises leaving everything unchanged otherwise. */
    method DistributeRewardsForGoals() returns (outcome: Outcome)
      ensures outcome == if goalAchieved == {} then Finished else Raised
    {
      if goalAchieved == {} {
        outcome := Finished;
      } else {
        outcome := Raised;
      }
    }
  }

  /** The `engaged_users` set built from `includes["users"]`. */
  method EngagedUsernames(us: seq<string>) returns (engaged: set<string>)
    ensures engaged == set u | u in us
  {
    engaged := {};
    var i := 0;
    while i < |us|
      invariant 0 <= i <= |us|
      invariant engaged == set j | 0 <= j < i :: us[j]
    {
      engaged := engaged + {us[i]};
      i := i + 1;
    }
  }

  /** The award loop of distribute_rewards: one award_item per user. */
  method AwardEach(inventory: Inventory, users: set<string>, item: string)
    modifies inventory
    ensures inventory.rows == AwardAll(old(inventory.rows), users, item)
  {
    ghost var rows0 := inventory.rows;
    var remaining := users;
    ghost var done: set<string> := {};
    while remaining != {}
      invariant done + remaining == users && done !! remaining
      invariant inventory.rows == AwardAll(rows0, done, item)
      decreases remaining
    {
      var u :| u in remaining;
      AwardAllStep(rows0, done, u, item);
      inventory.AwardItem(u, item);
      remaining := remaining - {u};
      done := done + {u};
    }
    assert done == users;
  }

  /** Awarding one more user extends AwardAll by one upsert. */
  lemma AwardAllStep(rows: Rows, done: set<string>, u: string, item: string)
    requires u !in done
    ensures AwardAll(rows, done + {u}, item) == Upsert(AwardAll(rows, done, item), Key(u, item))
  {
    var c := AwardAll(rows, done, item);
    var a := AwardAll(rows, done + {u}, item);
    var b := Upsert(c, Key(u, item));
    forall k | k in a.Keys
      ensures k in b.Keys && a[k] == b[k]
    {
      if k.item == item {
        assert k == Key(k.username, item);
        assert Quantity(a, Key(k.username, item)) == Quantity(c, Key(k.username, item)) + (if k.username == u then 1 else 0);
      } else {
        assert Quantity(a, k) == Quantity(c, k);
      }
    }
    forall k | k in b.Keys
      ensures k in a.Keys
    {
      if k.item == item {
        assert k == Key(k.username, item);
      }
    }
    assert a == b;
  }

}
