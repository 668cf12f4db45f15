/** The constants of config/config.py that the core reads. */
module Config {

  /** The reward catalogue (`ITEM_OPTIONS`); the same five names, in the same
      order, are repeated as `item_options` in utils/item_award.py and
      utils/rewards_service.py. */
  const ITEM_OPTIONS: seq<string> := ["Wood", "Bacon", "Stone", "Iron", "Water"]

  /** `ENGAGEMENT_TOTAL_TARGET` of the configuration (and of utils/schedule_tasks.py). */
  const ENGAGEMENT_TOTAL_TARGET: nat := 5

  /** The platform's post-length limit that every reply is cut to. */
  const TWEET_LIMIT: nat := 280
}
