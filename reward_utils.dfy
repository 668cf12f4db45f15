/**
 * utils/reward_utils.py: the module-level `current_reward`, which starts as
 * None and is reassigned to a random catalogue member by `shuffle_reward`,
 * and `award_item(username)`, which credits that reward through the same
 * insert-or-increment statement as utils/item_award.py.
 */
module RewardUtils {
  import opened Twitter
  import opened Config
  import opened ItemAward

  /** The state `award_item` leaves: keyed rows, plus the rows it inserts
      while `current_reward` is still None. SQLite never considers two NULLs
      equal under a UNIQUE constraint, so such an insert never conflicts and
      always adds a fresh (username, NULL, 1) row. */
  datatype Table = Table(rows: Rows, nullItemRows: seq<string>)

  /** The effect of award_item(username) when the current reward is `reward`. */
  function AwardCurrent(t: Table, username: string, reward: Option<string>): (r: Table)
    ensures reward.Some? ==> r.rows == Upsert(t.rows, Key(username, reward.value))
                             && r.nullItemRows == t.nullItemRows
    ensures reward.None? ==> r.rows == t.rows && r.nullItemRows == t.nullItemRows + [username]
    ensures forall k :: (reward.None? || k != Key(username, reward.value)) ==>
              Quantity(r.rows, k) == Quantity(t.rows, k)
  {
    match reward
    case Some(item) => t.(rows := Upsert(t.rows, Key(username, item)))
    case None => t.(nullItemRows := t.nullItemRows + [username])
  }

  class RewardLedger {
    var currentReward: Option<string>
    var table: Table

    /** Module load: `current_reward = None`, empty inventory. */
    constructor ()
      ensures currentReward == None && table == Table(map[], [])
    {
      currentReward := None;
      table := Table(map[], []);
    }

    /** shuffle_reward: `random.choice(ITEM_OPTIONS)`, any member of the
        catalogue; the inventory is not touched. */
    method ShuffleReward()
      modifies this
      ensures currentReward.Some? && currentReward.value in ITEM_OPTIONS
      ensures table == old(table)
    {
      assert ITEM_OPTIONS[0] in ITEM_OPTIONS;
      var item :| item in ITEM_OPTIONS;
      currentReward := Some(item);
    }

    /** award_item(username): insert-or-increment of (username, current_reward);
        the current reward itself does not change. */
    method AwardItem(username: string)
      modifies this
      ensures table == AwardCurrent(old(table), username, old(currentReward))
      ensures currentReward == old(currentReward)
    {
      table := AwardCurrent(table, username, currentReward);
    }
  }
}
