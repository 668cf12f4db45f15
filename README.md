# twitter-reply-bot, modelled in Dafny

This project models the core of a Twitter reply bot ("Pig" bot). The bot
answers mentions with text from a language model. It reacts to the `#pigme`
and `#pigID` hashtags and rewards users who engage with its tweets by
crediting game items ("Wood", "Bacon", "Stone", "Iron", "Water") to an SQLite
inventory. It also keeps a local copy of users' tweets and scores how often
tickers are mentioned against market data.

Every network call (the Twitter API, the language model, Dexscreener) is
modelled by the value it returns, or by the fact that it raised. That value
is an input to the model. Effects on the outside world are recorded as
values: a sequence of calls or actions in order, or the rows of a table.
Random draws (`random.choice`) are any member of the catalogue, picked with
`:|`. The draws each run made are returned so that the run can be tied to
a specification function.

Modules, one per source file:

- `Twitter` and `Config` hold the shared shapes (tweets, metrics,
  completions, Python's `s[:n]`) and the constants of `config/config.py`.
- `ItemAward` (`utils/item_award.py`) models the inventory table and its
  insert-or-increment `award_item`. It is a class whose `rows` map the
  method updates.
- `RewardUtils` (`utils/reward_utils.py`) models the module-level
  `current_reward`, which starts as `None`, together with `shuffle_reward`
  and the one-argument `award_item`.
- `RewardsService` (`utils/rewards_service.py`) models the engagement
  poller with target 3: `check_engagements`, `distribute_rewards`,
  `shuffle_reward` and `distribute_rewards_for_goals`. The module's globals
  become fields of the `Poller` class. Each method is proved against the
  fold `CheckAll`, and the lemmas are stated about that fold.
- `ScheduleTasks` (`utils/schedule_tasks.py`) models the poller with
  target 5. Only tweepy exceptions are caught inside its loop. Any other
  exception ends the whole check and skips `log_database_state`.
  `log_database_state` runs outside any `try`, so when it raises the whole
  check raises; whether it raises is an input.
- `MentionHandler` (`bot/mention_handler.py`) models `handle_mention` as a
  pure function from a mention and the answers of the services to the
  actions the handler takes, in order.
- `DexAnalysis` (`dex/dex_analysis.py`) models the ticker histogram, the
  most-mentioned ticker, the score (kept as an exact ratio) and the loop
  over the market answers.
- `TweetStore` (`utils/db.py`) models `store_tweets_in_db`, where the first
  copy of a tweet id wins and duplicates raise `IntegrityError`, which is
  skipped. It also models the paginated `fetch_and_store_all_tweets`.
- `ReplyBot` (`twitter-reply-bot.py`) models the bot class: its counters,
  `respond_to_mention`, the 280-character truncation, and
  `respond_to_mentions` with its limit of 10 mentions per run.

Where the code departs from what its names and comments suggest, the model follows the code:

- `#pigID` analysis never runs. `handle_mention` lower-cases the text and
  then looks for the mixed-case `"#pigID"`, which cannot match
  (`MentionHandler.PigIdNeverMatches`). `MentionHandler.PigIdBranch` still
  models what that branch would do.
- `distribute_rewards_for_goals` calls the two-parameter
  `distribute_rewards` with one argument. It therefore raises on a
  non-empty set and does nothing on an empty one.
- `utils/schedule_tasks.py` imports a `distribute_rewards` that
  `utils/reward_utils.py` does not define. The model records the call and
  gives it no effect.
- `log_database_state` imports `get_all_engagements` and
  `get_all_inventory` from `utils/db.py`, which defines neither. With the
  `utils/db.py` of this repository that import raises, so the check raises
  after every loop that was not left by an exception. The model keeps this
  as the input `logRaises` rather than fixing it to true.
- `utils/rewards_service.py` uses a target of 3, while the configuration
  and `utils/schedule_tasks.py` use 5. Each module keeps its own constant.

## Model

| member | source | states |
|---|---|---|
| Twitter.Prefix | twitter-reply-bot.py:134 | `s[:n]` has at most n elements, is a prefix of s, is all of s when s is short enough, and has exactly n elements otherwise |
| ItemAward.Upsert | utils/item_award.py:14-18 | the insert-or-increment statement: a new (username, item) row gets quantity 1, an existing one gets one more, and every other row keeps its quantity |
| ItemAward.UpsertTimesCount | utils/item_award.py:8-21 | n awards of the same item add exactly n to that user's quantity (n for a new row) and change no other row |
| ItemAward.ItemsAreIndependentCounters | utils/item_award.py:14-18 | the UNIQUE(username, item) key separates each item into its own counter: awarding one item leaves the user's other items unchanged |
| ItemAward.Inventory.AwardItem | utils/item_award.py:8-21 | the table becomes the upsert of (username, reward_item), and that row then holds at least 1 |
| RewardUtils.AwardCurrent | utils/reward_utils.py:15-25 | with a current reward the keyed row is upserted; while it is still None, a fresh NULL-item row is added; no other quantity changes |
| RewardUtils.RewardLedger.constructor | utils/reward_utils.py:8 | `current_reward` starts as None and the inventory starts empty |
| RewardUtils.RewardLedger.ShuffleReward | utils/reward_utils.py:10-13 | afterwards the current reward is some catalogue member and the inventory is untouched |
| RewardUtils.RewardLedger.AwardItem | utils/reward_utils.py:15-25 | the table becomes AwardCurrent of the old table with the current reward, and the reward itself is unchanged |
| RewardsService.AwardAll | utils/rewards_service.py:72-74 | every user of the set gets exactly one more of the item, every other (user, item) quantity is unchanged, and no row disappears |
| RewardsService.AwardEach | utils/rewards_service.py:72-74 | the award loop, one award_item per user: the new rows are AwardAll of the old rows |
| RewardsService.EngagedUsernames | utils/rewards_service.py:66-69 | the set built from `includes["users"]` holds exactly the listed usernames |
| RewardsService.Poller.constructor | utils/rewards_service.py:9-11 | the initial reward is a catalogue member, and no tweet is flagged yet |
| RewardsService.Poller.ShuffleReward | utils/rewards_service.py:13-16 | the drawn item is a catalogue member and becomes current; nothing else changes |
| RewardsService.Poller.DistributeRewards | utils/rewards_service.py:57-77 | every distinct engaged user gets the current reward once, a failed lookup awards nobody, and the call never raises |
| RewardsService.Poller.CheckTweetStep | utils/rewards_service.py:23-45 | one iteration of the loop is one CheckTweet step, and the current reward stays in the catalogue |
| RewardsService.Poller.CheckEngagements | utils/rewards_service.py:18-45 | a failed timeline changes nothing and raises; otherwise the new state is CheckAll over the timeline with the draws made, all of them catalogue members |
| RewardsService.Poller.DistributeRewardsForGoals | utils/rewards_service.py:49-54 | finishes when no tweet is flagged and raises (the TypeError of the one-argument call) otherwise |
| RewardsService.CheckTweet | utils/rewards_service.py:23-42 | one iteration leaves the state alone for a flagged tweet, flags the tweet exactly when it is unflagged and reaches 3, and only appends calls, at most three |
| RewardsService.CheckAll | utils/rewards_service.py:18-45 | the loop makes at most three calls per tweet of the timeline |
| RewardsService.CheckAllPush | utils/rewards_service.py:22-45 | checking one more tweet extends the fold by one iteration |
| RewardsService.CheckAllFlagsExactly | utils/rewards_service.py:29-35 | after a check, the flagged tweets are exactly the earlier flagged ones plus those whose likes + retweets + replies reach 3 |
| RewardsService.CheckAllKeepsRewardInCatalogue | utils/rewards_service.py:9-16 | the current reward stays a catalogue member through any check |
| RewardsService.ConcatCalls | utils/rewards_service.py:22-45 | pairing, single distribution and avoidance of flagged tweets survive concatenating the calls of two runs with disjoint distributions |
| RewardsService.CheckAllExtends | utils/rewards_service.py:22-45 | a check only appends calls and only adds flagged tweets |
| RewardsService.CheckTweetCalls | utils/rewards_service.py:24-42 | one iteration calls nothing for a flagged tweet, pairs its distribution with one shuffle, and distributes exactly for the tweet it newly flags |
| RewardsService.CheckAllCalls | utils/rewards_service.py:18-45 | a whole check never fetches or distributes for an already flagged tweet, follows every distribution directly by one shuffle (and precedes every shuffle by one), and distributes once for each newly flagged tweet and for no other |
| RewardsService.AwardAllStep | utils/rewards_service.py:72-74 | awarding one more user is one more upsert |
| ScheduleTasks.CheckTweet | utils/schedule_tasks.py:16-33 | once an exception has left the loop nothing changes; otherwise a flagged tweet is skipped, an unflagged one is flagged exactly when it reaches 5, a non-tweepy exception ends the loop, and at most three calls are appended |
| ScheduleTasks.CheckAll | utils/schedule_tasks.py:15-33 | the loop makes at most three calls per tweet of the timeline |
| ScheduleTasks.Check | utils/schedule_tasks.py:10-36 | check_engagements adds at most one call, the database log, to those of the loop and flags exactly what the loop flagged |
| ScheduleTasks.CheckAllPush | utils/schedule_tasks.py:15-33 | checking one more tweet extends the fold by one iteration |
| ScheduleTasks.CheckAllFlags | utils/schedule_tasks.py:15-33 | without an uncaught exception exactly the tweets reaching 5 are added; an uncaught exception at tweet k leaves that tweet unflagged and keeps only what the tweets before it reached |
| ScheduleTasks.ConcatLoopCalls | utils/schedule_tasks.py:15-33 | pairing, single distribution and avoidance of flagged tweets survive concatenating the calls of two runs with disjoint distributions |
| ScheduleTasks.CheckTweetCalls | utils/schedule_tasks.py:16-33 | one iteration calls nothing for a flagged tweet, pairs its distribution with one shuffle, distributes exactly for the tweet it newly flags, and makes a call whenever it raises |
| ScheduleTasks.CheckAllCalls | utils/schedule_tasks.py:15-33 | the loop only appends calls; none fetches or distributes for an already flagged tweet and none logs the database state; every distribution is directly followed by one shuffle and every shuffle directly follows a distribution; each newly flagged tweet gets exactly one distribution and no other tweet gets one |
| ScheduleTasks.MonotoneFlags | utils/schedule_tasks.py:15-33 | the flagged set never shrinks and the calls are only appended to |
| ScheduleTasks.LogStateExactlyWhenFinished | utils/schedule_tasks.py:10-36 | `log_database_state` is the last call exactly when no uncaught exception left the loop, such an exception comes from an unflagged tweet, and the check raises exactly when the loop or `log_database_state` raises |
| ScheduleTasks.SchedulePoller.constructor | utils/schedule_tasks.py:8 | no tweet is flagged at module load |
| ScheduleTasks.SchedulePoller.CheckTweetStep | utils/schedule_tasks.py:16-33 | one iteration is one CheckTweet step, and the inventory is untouched |
| ScheduleTasks.SchedulePoller.CheckEngagements | utils/schedule_tasks.py:10-36 | a failed timeline raises and changes nothing; otherwise the new state and the outcome are Check over the timeline with the draws made (raising when the loop or `log_database_state` raises), and the inventory is untouched |
| MentionHandler.LowerChar | bot/mention_handler.py:53 | `lower()` maps each of A-Z to the lower-case letter at the same position of the alphabet, leaves every other character as it is, and never yields A-Z |
| MentionHandler.Lower | bot/mention_handler.py:53 | lower-casing keeps the length and lowers each character |
| MentionHandler.PigIdNeverMatches | bot/mention_handler.py:53 | the lower-cased text never contains "#pigID", so the analysis branch is dead |
| MentionHandler.PigmeIgnoresCase | bot/mention_handler.py:84 | the `#pigme` test matches the hashtag in any letter case |
| MentionHandler.GetMentionConversationTweet | bot/mention_handler.py:24-35 | there is a conversation tweet exactly when the mention has a conversation id and the lookup finds data, and then it is that tweet's text |
| MentionHandler.SourceText | bot/mention_handler.py:44-50 | the parent tweet's text when there is one, the mention's own text otherwise |
| MentionHandler.GenerateResponse | bot/mention_handler.py:106-136 | at most 280 characters: a prefix of the completion, cut only when longer than 280, or the fallback text when the model raised |
| MentionHandler.TaggedUsernames | bot/mention_handler.py:57-61 | exactly the tagged usernames other than the author; the first is the first tag that is not the author, and none is left when every tag is the author |
| MentionHandler.TaggedUsernamesKeepsOrder | bot/mention_handler.py:57-61 | any two kept usernames occur among the tags in the same order |
| MentionHandler.TaggedUsernamesKeepsTags | bot/mention_handler.py:57-61 | the author is never kept, and every other username is kept exactly as many times as it is tagged |
| MentionHandler.PigIdBranch | bot/mention_handler.py:53-81 | with no other user tagged it asks for a tag; otherwise it analyses the first one and replies with the report, or with the fallback when the analysis or the reply fails; it awards nothing |
| MentionHandler.HandleMention | bot/mention_handler.py:37-103 | handling a mention takes at least one action; the conversation lookup comes first exactly when the mention has a conversation id, and is never repeated later |
| MentionHandler.HandleMentionNeverAnalyses | bot/mention_handler.py:37-103 | handling a mention never runs the consistency analysis |
| MentionHandler.PigmeBranch | bot/mention_handler.py:84-90 | a `#pigme` mention shows the inventory, sends the direct message exactly when that succeeded, and neither replies nor awards |
| MentionHandler.DefaultBranch | bot/mention_handler.py:93-103 | any other mention generates from the source text, replies "@author, response", and awards the current reward exactly when the reply was posted, right after it |
| DexAnalysis.Distinct | dex/dex_analysis.py:9 | the Counter's keys: each ticker once, and exactly the tickers of the input |
| DexAnalysis.FirstIndex | dex/dex_analysis.py:9 | the position of a ticker's first mention: it holds the ticker and no earlier position does |
| DexAnalysis.DistinctInFirstSeenOrder | dex/dex_analysis.py:9 | the Counter's keys come in the order of the tickers' first mentions |
| DexAnalysis.ArgMax | dex/dex_analysis.py:33 | `max(..., key=count)` returns a key of the Counter |
| DexAnalysis.CountBound | dex/dex_analysis.py:9 | a count is at most the number of tickers, and positive exactly for tickers that occur |
| DexAnalysis.CountsSumToLength | dex/dex_analysis.py:34 | the Counter's values add up to the number of tickers |
| DexAnalysis.SumCountsAppend | dex/dex_analysis.py:9 | one more occurrence of a counted ticker adds one to the sum of counts |
| DexAnalysis.SumCountsBound | dex/dex_analysis.py:34-35 | a sum of counts each at most m is at most m times their number |
| DexAnalysis.ScoreBounds | dex/dex_analysis.py:32-37 | the score is 0 without tickers; otherwise its denominator is the number of tickers and it lies between 1/(distinct tickers) and 1 |
| DexAnalysis.MostMentionedIsFirstMaximal | dex/dex_analysis.py:33 | the most-mentioned ticker has the largest count, and on a tie it is first mentioned before every other maximal ticker, both in the input and among the Counter's keys |
| DexAnalysis.Score | dex/dex_analysis.py:32-39 | the score is 0 without tickers; otherwise it is the count of the most-mentioned ticker over the number of tickers |
| DexAnalysis.Entries | dex/dex_analysis.py:17-24 | a 200 answer keeps one entry per pair among its first three |
| DexAnalysis.CollectEntries | dex/dex_analysis.py:17-24 | the loop over pairs fails exactly when some pair lacks liquidity; otherwise it makes one entry per pair, in order |
| DexAnalysis.AnalyzeTickersWithMarketData | dex/dex_analysis.py:8-39 | raises exactly when a request or a pair raises; otherwise it reports exactly the tickers with a 200 answer, each with its count and at most three entries, and a score that depends on the counts only |
| TweetStore.InsertKept | utils/db.py:66-78 | storing a batch keeps every stored id |
| TweetStore.Kept | utils/db.py:60-82 | the tweets reported as new are at most as many as the tweets given |
| TweetStore.IdsPush | utils/db.py:66 | the ids of a batch grow by the id of the tweet appended |
| TweetStore.InsertKeptStoresAll | utils/db.py:66-78 | after storing, the table holds the old ids and every id of the batch, and old rows are never overwritten |
| TweetStore.KeptDistinct | utils/db.py:66-78 | the new tweets have pairwise distinct ids, all taken from the batch |
| TweetStore.KeptFresh | utils/db.py:66-78 | every tweet reported as new is in the batch and its id was not stored before |
| TweetStore.KeptExactlyNew | utils/db.py:66-78 | a tweet is reported as new exactly when its id was neither stored nor seen earlier in the batch |
| TweetStore.InsertKeptFirstWins | utils/db.py:66-78 | the row of a new id holds the username, text and date of its first occurrence in the batch |
| TweetStore.InsertKeptGrowsByKept | utils/db.py:66-82 | the table grows by exactly the number of tweets reported as new |
| TweetStore.StoreStep | utils/db.py:66-78 | one iteration: a duplicate id is skipped, a new one is inserted and reported |
| TweetStore.TweetTable.StoreTweetsInDb | utils/db.py:60-82 | the result is the tweets whose ids were new, and the new table is the old one with those rows inserted |
| TweetStore.TweetTable.FetchAndStoreAllTweets | utils/db.py:28-58 | without a user id nothing is fetched or changed; otherwise the table, the tweet count and the requests are those of the paginated fetch |
| TweetStore.Fetch | utils/db.py:38-58 | the paginated fetch never lowers the tweet count, never goes back a request, and never requests past the last answer |
| TweetStore.FetchKeepsRows | utils/db.py:38-58 | fetching never removes or overwrites a stored row |
| TweetStore.FetchCountsRows | utils/db.py:47-49 | the tweet count grows by exactly the number of rows added |
| TweetStore.FetchStops | utils/db.py:38-58 | the fetch stops at max_count, at the last page, or after a failed or final page, and no earlier page was final |
| TweetStore.FetchUnfold | utils/db.py:38-58 | one request of the loop: a failed page stops, a page without next_token stores and stops, otherwise it stores and goes on |
| ReplyBot.Truncate | twitter-reply-bot.py:77-81 | a reply has at most 280 characters: unchanged when it fits, otherwise its first 277 characters followed by "..." |
| ReplyBot.TruncateIdempotent | twitter-reply-bot.py:77-81 | truncating twice is truncating once |
| ReplyBot.GenerateResponse | twitter-reply-bot.py:44-81 | there is a response exactly when the model completes, of at most 280 characters, equal to the completion when that fits |
| ReplyBot.GetMentionConversationTweet | twitter-reply-bot.py:104-109 | no conversation id gives None; with a conversation id, a lookup that finds a tweet gives that tweet and one without data gives None; a tweet comes only from a lookup that found it; the lookup raises exactly when it is made and fails |
| ReplyBot.ReplyTo | twitter-reply-bot.py:84-96 | a reply answers the mention, has at most 280 characters, and is posted exactly when create_tweet succeeds |
| ReplyBot.RespondTo | twitter-reply-bot.py:84-96 | answering a mention appends its reply and adds one to `mentions_replied` when the tweet was posted, or to `mentions_replied_errors` when it was not, and leaves `mentions_found` alone |
| ReplyBot.ProcessMention | twitter-reply-bot.py:134-139 | one mention raises exactly when it aborts, leaves the state alone when it is not answered, and never changes `mentions_found` |
| ReplyBot.ProcessAll | twitter-reply-bot.py:134-139 | the loop never changes `mentions_found` |
| ReplyBot.RespondToMentions | twitter-reply-bot.py:124-140 | no mentions change nothing and raise nothing; otherwise `mentions_found` becomes the number of mentions |
| ReplyBot.Answers | twitter-reply-bot.py:134-139 | a run replies at most once per mention |
| ReplyBot.AnswersMembers | twitter-reply-bot.py:134-139 | every reply answers an answered mention of the batch, and every answered mention gets its reply |
| ReplyBot.PostedCount | twitter-reply-bot.py:39-41 | the posted replies are at most all the replies |
| ReplyBot.PostedCountAppend | twitter-reply-bot.py:84-96 | one more reply adds one to the posted count exactly when it was posted |
| ReplyBot.ProcessMentionEffect | twitter-reply-bot.py:134-139 | one mention either raises out of the loop or is answered, counted as replied or as an error, or skipped |
| ReplyBot.ProcessAllCounts | twitter-reply-bot.py:124-140 | the loop keeps `mentions_found`, only appends replies, and counts each posted reply as replied and each failed one as an error |
| ReplyBot.FirstAbort | twitter-reply-bot.py:134-139 | the position of the first mention that raises, or the length when none does |
| ReplyBot.FirstAbortPush | twitter-reply-bot.py:134-139 | appending a mention moves the first raising position only when none raised before |
| ReplyBot.ProcessAllReplies | twitter-reply-bot.py:124-140 | the loop raises exactly when some mention raises, and the replies made are those of the mentions before the first one that raises |
| ReplyBot.RaisesIffSomeAborts | twitter-reply-bot.py:134-139 | the run raises exactly when one of its mentions raises |
| ReplyBot.FreshBotBound | twitter-reply-bot.py:124-140 | no mentions leave a fresh bot untouched; otherwise `mentions_found` counts all of them and at most 10 are answered |
| ReplyBot.ProcessAllStaysRaised | twitter-reply-bot.py:134-139 | once a mention has raised, the later mentions change nothing |
| ReplyBot.TwitterBot.constructor | twitter-reply-bot.py:33-41 | a new bot has a response limit of 10 and all counters at 0 |
| ReplyBot.TwitterBot.RespondToMention | twitter-reply-bot.py:84-96 | a completion that raises propagates out of the call (result None) with the counters unchanged; otherwise it returns True and counts the truncated reply as replied or as an error |
| ReplyBot.TwitterBot.RespondToMentionsRun | twitter-reply-bot.py:124-140 | the new state and the outcome are those of RespondToMentions, which returns early on no mentions |

## Left out

- Network clients are not modelled: `get_user_id`, the user lookup and
  sending of `send_direct_message_via_tweepy`, the Dexscreener request,
  `get_me_id`/`get_mentions` and `utils/twitter_utils.py`. Each is replaced
  by the answer it returns, supplied as input.
- The prompts sent to the language model and the text given to it are not
  modelled. The completion, or its exception, is an input.
- Scheduling, threads and the endless job loops are not modelled
  (`main.py`, `job`, `schedule_tweet_updates`, the `while True` loops).
- `utils/god_mode.py`, `utils/persona_utils.py` and `bot/twitter_bot.py` are
  not part of this model.
- SQLite connections, the schema statements, commits and database errors
  are not modelled. A table is a map from its key to its row.
- RewardUtils.AwardCurrent assumes the `item` column accepts NULL. SQLite
  then never treats two NULL keys as equal, so an award while
  `current_reward` is None adds a separate row.
- `show_inventory`, `run_consistency_analysis` and `log_database_state` are
  external calls. They are recorded as actions or calls, and only their
  success or failure is an input.
- MentionHandler.LowerChar folds only ASCII letters, while Python's
  `lower()` also folds other scripts.
- DexAnalysis.EntryOf copies the market fields as given. Number formats and
  a `pairs` value of null are not modelled.
- Date parsing (`strptime`) is not modelled, and `created_at` is kept as
  the text it is. A tweet without `created_at`, or a date `strptime`
  rejects, raises out of `store_tweets_in_db` and then out of
  `fetch_and_store_all_tweets`, leaving that page uncommitted; the model
  has no such failure.
- ReplyBot.TwitterBot.RespondToMentionsRun: `get_mentions` raising is not
  modelled; the source then raises with every counter unchanged.
- TweetStore.TweetTable.FetchAndStoreAllTweets does not build the request
  URL or pass `next_token` around. Pages are the answers in order, and
  their number is counted. Its precondition asks that, once a user id
  exists, some page is final, because a paginated fetch that never ends is
  not a terminating loop.
- TweetStore.KeptExactlyNew states which tweets are reported as new, but
  not that they keep the order of the input. `Kept` builds them in input
  order, and no lemma restates that.
- ScheduleTasks.SchedulePoller.CheckEngagements models an uncaught
  exception by skipping the remaining tweets, which add nothing to the
  state. The tweet where it was raised gets only a metrics call.
- ScheduleTasks.SchedulePoller.CheckTweetStep returns a placeholder
  catalogue item as its draw where no shuffle happened.
- `send_direct_message_via_tweepy` refers to a `tweepy.TweepError` that
  current tweepy no longer defines. The model only records whether the
  message was sent.
- Logging is not modelled anywhere.
