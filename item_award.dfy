/**
 * utils/item_award.py: the `inventory` table and its award statement
 * `INSERT ... VALUES (?, ?, 1) ON CONFLICT(username, item) DO UPDATE SET
 * quantity = quantity + 1`. The table is a map from its UNIQUE key
 * (username, item) to the stored quantity.
 */
module ItemAward {

  /** The conflict target of the upsert: one row per (username, item) pair. */
  datatype Key = Key(username: string, item: string)

  type Rows = map<Key, nat>

  /** The quantity a row holds, 0 when there is no row. */
  function Quantity(rows: Rows, k: Key): nat
  {
    if k in rows then rows[k] else 0
  }

  /** The insert-or-increment statement applied to key `k`. */
  function Upsert(rows: Rows, k: Key): (r: Rows)
    ensures r.Keys == rows.Keys + {k}
    ensures k !in rows ==> r[k] == 1
    ensures k in rows ==> r[k] == rows[k] + 1
    ensures forall k' :: k' != k ==> Quantity(r, k') == Quantity(rows, k')
    ensures forall k' :: k' in rows ==> k' in r && rows[k'] <= r[k']
  {
    if k in rows then rows[k := rows[k] + 1] else rows[k := 1]
  }

  /** `n` successive awards of the same key. */
  function UpsertTimes(rows: Rows, k: Key, n: nat): Rows
    decreases n
  {
    if n == 0 then rows else Upsert(UpsertTimes(rows, k, n - 1), k)
  }

  /** n awards raise the key's quantity by exactly n and touch no other row;
      from an absent key they leave quantity n. */
  lemma {:induction false} UpsertTimesCount(rows: Rows, k: Key, n: nat)
    ensures Quantity(UpsertTimes(rows, k, n), k) == Quantity(rows, k) + n
    ensures k !in rows ==> Quantity(UpsertTimes(rows, k, n), k) == n
    ensures forall k' :: k' != k ==> Quantity(UpsertTimes(rows, k, n), k') == Quantity(rows, k')
    decreases n
  {
    if n > 0 {
      UpsertTimesCount(rows, k, n - 1);
    }
  }

  /** The same user holds one independent counter per item. */
  lemma ItemsAreIndependentCounters(rows: Rows, u: string, awarded: string, other: string)
    requires awarded != other
    ensures Quantity(Upsert(rows, Key(u, awarded)), Key(u, other)) == Quantity(rows, Key(u, other))
    ensures Quantity(Upsert(rows, Key(u, awarded)), Key(u, awarded)) == Quantity(rows, Key(u, awarded)) + 1
  {
  }

  /** The `inventory` table of engagements.db. */
  class Inventory {
    var rows: Rows

    constructor ()
      ensures rows == map[]
    {
      rows := map[];
    }

    /** award_item(username, reward_item). */
    method AwardItem(username: string, rewardItem: string)
      modifies this
      ensures rows == Upsert(old(rows), Key(username, rewardItem))
      ensures rows[Key(username, rewardItem)] >= 1
    {
      var k := Key(username, rewardItem);
      if k in rows {
        rows := rows[k := rows[k] + 1];
      } else {
        rows := rows[k := 1];
      }
    }
  }
}
