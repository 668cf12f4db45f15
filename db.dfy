/**
 * utils/db.py: the `tweets` table of pig_bot.db, keyed on tweet_id.
 * `store_tweets_in_db` tries to insert every tweet of a batch and keeps the
 * ones the key constraint lets through; `fetch_and_store_all_tweets` pages
 * through a user's timeline until a page fails, pagination ends, or enough
 * new tweets were stored. The HTTP answers are given as the sequence of
 * pages the successive requests receive.
 */
module TweetStore {
  import opened Twitter

  /** A tweet of the timeline payload; `created_at` is carried as given. */
  datatype Tweet = Tweet(id: string, text: string, createdAt: string)

  /** A stored row: (username, tweet_text, created_at) under its tweet_id. */
  datatype Row = Row(username: string, text: string, createdAt: string)

  type Rows = map<string, Row>

  /** One timeline request's answer: its status, its `data` and its `meta.next_token`. */
  datatype Page = Page(status: int, tweets: seq<Tweet>, nextToken: Option<string>)

  function Ids(ts: seq<Tweet>): set<string>
  {
    set t | t in ts :: t.id
  }

  /** A tweet of a batch is new when its id is neither stored nor used by an
      earlier tweet of the same batch. */
  predicate IsNew(stored: set<string>, ts: seq<Tweet>, k: nat)
    requires k < |ts|
  {
    ts[k].id !in stored && ts[k].id !in Ids(ts[..k])
  }

  /** The new tweets of a batch, in input order. */
  function Kept(stored: set<string>, ts: seq<Tweet>): (r: seq<Tweet>)
    ensures |r| <= |ts|
    decreases |ts|
  {
    if ts == [] then []
    else
      var n := |ts| - 1;
      Kept(stored, ts[..n]) + (if IsNew(stored, ts, n) then [ts[n]] else [])
  }

  /** The table after the batch: each new tweet inserted under its id. */
  function InsertKept(rows: Rows, ts: seq<Tweet>, username: string): (r: Rows)
    ensures rows.Keys <= r.Keys
    decreases |ts|
  {
    if ts == [] then rows
    else
      var n := |ts| - 1;
      var r := InsertKept(rows, ts[..n], username);
      if IsNew(rows.Keys, ts, n) then r[ts[n].id := Row(username, ts[n].text, ts[n].createdAt)] else r
  }

  lemma IdsPush(ts: seq<Tweet>, t: Tweet)
    ensures Ids(ts + [t]) == Ids(ts) + {t.id}
  {
    assert forall x :: x in ts + [t] <==> x in ts || x == t;
  }

  /** After a batch every tweet id of the batch is stored and the rows
      already there are not overwritten. */
  lemma {:induction false} InsertKeptStoresAll(rows: Rows, ts: seq<Tweet>, username: string)
    ensures InsertKept(rows, ts, username).Keys == rows.Keys + Ids(ts)
    ensures forall id :: id in rows ==> InsertKept(rows, ts, username)[id] == rows[id]
    decreases |ts|
  {
    if ts != [] {
      var n := |ts| - 1;
      InsertKeptStoresAll(rows, ts[..n], username);
      assert ts == ts[..n] + [ts[n]];
      IdsPush(ts[..n], ts[n]);
    }
  }

  /** The new tweets of a batch carry pairwise distinct ids taken from the batch. */
  lemma {:induction false} KeptDistinct(stored: set<string>, ts: seq<Tweet>)
    ensures Ids(Kept(stored, ts)) <= Ids(ts)
    ensures forall i, j :: 0 <= i < j < |Kept(stored, ts)| ==> Kept(stored, ts)[i].id != Kept(stored, ts)[j].id
    decreases |ts|
  {
    if ts != [] {
      var n := |ts| - 1;
      KeptDistinct(stored, ts[..n]);
      assert ts == ts[..n] + [ts[n]];
      IdsPush(ts[..n], ts[n]);
      var k := Kept(stored, ts[..n]);
      if IsNew(stored, ts, n) {
        IdsPush(k, ts[n]);
        assert ts[n].id !in Ids(k);
        var r := k + [ts[n]];
        forall i, j | 0 <= i < j < |r| ensures r[i].id != r[j].id {
          if j == |k| {
            assert r[i] in k;
          }
        }
      }
    }
  }

  /** Every returned tweet comes from the batch and its id was not stored before. */
  lemma {:induction false} KeptFresh(stored: set<string>, ts: seq<Tweet>)
    ensures forall t :: t in Kept(stored, ts) ==> t in ts && t.id !in stored
    decreases |ts|
  {
    if ts != [] {
      var n := |ts| - 1;
      KeptFresh(stored, ts[..n]);
      assert ts == ts[..n] + [ts[n]];
    }
  }

  /** The returned tweets are exactly the batch's tweets whose id is new:
      every new position is returned, and nothing else is. */
  lemma {:induction false} KeptExactlyNew(stored: set<string>, ts: seq<Tweet>)
    ensures forall k :: 0 <= k < |ts| && IsNew(stored, ts, k) ==> ts[k] in Kept(stored, ts)
    ensures forall t :: t in Kept(stored, ts) ==> exists k :: 0 <= k < |ts| && ts[k] == t && IsNew(stored, ts, k)
    decreases |ts|
  {
    if ts != [] {
      var n := |ts| - 1;
      KeptExactlyNew(stored, ts[..n]);
      forall k | 0 <= k < n
        ensures IsNew(stored, ts[..n], k) == IsNew(stored, ts, k)
      {
        assert ts[..n][..k] == ts[..k];
      }
    }
  }

  /** A repeated id keeps the row of its first occurrence in the batch. */
  lemma {:induction false} InsertKeptFirstWins(rows: Rows, ts: seq<Tweet>, username: string)
    ensures forall k :: 0 <= k < |ts| && IsNew(rows.Keys, ts, k) ==>
      ts[k].id in InsertKept(rows, ts, username) &&
      InsertKept(rows, ts, username)[ts[k].id] == Row(username, ts[k].text, ts[k].createdAt)
    decreases |ts|
  {
    if ts != [] {
      var n := |ts| - 1;
      InsertKeptFirstWins(rows, ts[..n], username);
      assert ts == ts[..n] + [ts[n]];
      forall k | 0 <= k < n
        ensures IsNew(rows.Keys, ts[..n], k) == IsNew(rows.Keys, ts, k)
      {
        assert ts[..n][..k] == ts[..k];
      }
      forall k | 0 <= k < n && IsNew(rows.Keys, ts, k)
        ensures ts[k].id != ts[n].id || !IsNew(rows.Keys, ts, n)
      {
        assert ts[k] in ts[..n];
      }
    }
  }

  /** The table grows by exactly the number of new tweets. */
  lemma {:induction false} InsertKeptGrowsByKept(rows: Rows, ts: seq<Tweet>, username: string)
    ensures |InsertKept(rows, ts, username)| == |rows| + |Kept(rows.Keys, ts)|
    decreases |ts|
  {
    if ts != [] {
      var n := |ts| - 1;
      InsertKeptGrowsByKept(rows, ts[..n], username);
      InsertKeptStoresAll(rows, ts[..n], username);
      var r := InsertKept(rows, ts[..n], username);
      if IsNew(rows.Keys, ts, n) {
        assert ts[n].id !in r.Keys;
        assert |r[ts[n].id := Row(username, ts[n].text, ts[n].createdAt)]| == |r| + 1;
      }
    }
  }

  /** One INSERT of the batch loop: the tweet is new exactly when its id is
      not yet in the table built so far. */
  lemma StoreStep(rows: Rows, ts: seq<Tweet>, i: nat, username: string)
    requires i < |ts|
    ensures var cur := InsertKept(rows, ts[..i], username);
      && Kept(rows.Keys, ts[..i + 1]) == Kept(rows.Keys, ts[..i]) + (if ts[i].id in cur then [] else [ts[i]])
      && InsertKept(rows, ts[..i + 1], username)
         == (if ts[i].id in cur then cur else cur[ts[i].id := Row(username, ts[i].text, ts[i].createdAt)])
  {
    var p := ts[..i + 1];
    assert p[..i] == ts[..i];
    InsertKeptStoresAll(rows, ts[..i], username);
    assert IsNew(rows.Keys, p, i) <==> ts[i].id !in InsertKept(rows, ts[..i], username);
  }

  /** The `tweets` table. */
  class TweetTable {
    var rows: Rows

    constructor (initial: Rows)
      ensures rows == initial
    {
      rows := initial;
    }

    /** store_tweets_in_db(tweets, username): an INSERT per tweet, the ones
        the key constraint rejects skipped, the inserted ones returned. */
    method StoreTweetsInDb(tweets: seq<Tweet>, username: string) returns (newTweets: seq<Tweet>)
      modifies this
      ensures newTweets == Kept(old(rows).Keys, tweets)
      ensures rows == InsertKept(old(rows), tweets, username)
    {
      ghost var initial := rows;
      newTweets := [];
      var i := 0;
      while i < |tweets|
        invariant 0 <= i <= |tweets|
        invariant newTweets == Kept(initial.Keys, tweets[..i])
        invariant rows == InsertKept(initial, tweets[..i], username)
      {
        var tweet := tweets[i];
        StoreStep(initial, tweets, i, username);
        if tweet.id !in rows {
          rows := rows[tweet.id := Row(username, tweet.text, tweet.createdAt)];
          newTweets := newTweets + [tweet];
        }
        i := i + 1;
      }
      assert tweets[..i] == tweets;
    }

    /** fetch_and_store_all_tweets(username, max_count): `userId` is what
        get_user_id returned, `pages` the answers of the successive
        requests, of which some page is the last one (a failure or a page
        without a next token). Returns the final `tweet_count` and the
        number of requests made. */
    method FetchAndStoreAllTweets(username: string, userId: Option<string>, pages: seq<Page>, maxCount: nat)
      returns (tweetCount: nat, requests: nat)
      requires HasUserId(userId) ==> PaginationEnds(pages)
      modifies this
      ensures !HasUserId(userId) ==> rows == old(rows) && tweetCount == 0 && requests == 0
      ensures HasUserId(userId) ==> Fetch(old(rows), username, pages, 0, 0, maxCount)
                                    == FetchState(rows, tweetCount, requests)
    {
      tweetCount, requests := 0, 0;
      if !HasUserId(userId) {
        return;
      }
      ghost var initial := rows;
      while tweetCount < maxCount
        invariant LastPageFrom(pages, requests)
        invariant Fetch(initial, username, pages, 0, 0, maxCount)
                  == Fetch(rows, username, pages, requests, tweetCount, maxCount)
        decreases |pages| - requests
      {
        ghost var k :| requests <= k < |pages| && LastPage(pages[k]);
        ghost var before, r0, c0 := rows, requests, tweetCount;
        var page := pages[requests];
        requests := requests + 1;
        if page.status != 200 {
          FetchUnfold(before, username, pages, r0, c0, maxCount);
          break;
        }
        var newTweets := StoreTweetsInDb(page.tweets, username);
        tweetCount := tweetCount + |newTweets|;
        if page.nextToken.None? {
          FetchUnfold(before, username, pages, r0, c0, maxCount);
          break;
        }
        assert k != r0 by {
          assert !LastPage(pages[r0]);
        }
        FetchGoesOn(before, rows, username, pages, r0, c0, tweetCount, maxCount);
      }
    }
  }

  /** `if not user_id`: None and the empty string both skip the fetch. */
  predicate HasUserId(userId: Option<string>)
  {
    userId.Some? && userId.value != ""
  }

  /** A page after which no further request is made. */
  predicate LastPage(p: Page)
  {
    p.status != 200 || p.nextToken.None?
  }

  predicate PaginationEnds(pages: seq<Page>)
  {
    LastPageFrom(pages, 0)
  }

  /** Some page from request `i` on is a last page. */
  predicate LastPageFrom(pages: seq<Page>, i: nat)
  {
    exists k :: i <= k < |pages| && LastPage(pages[k])
  }

  datatype FetchState = FetchState(rows: Rows, tweetCount: nat, requests: nat)

  /** The fetch loop from request `i` on, with `count` new tweets so far. */
  function Fetch(rows: Rows, username: string, pages: seq<Page>, i: nat, count: nat, maxCount: nat): (f: FetchState)
    ensures count <= f.tweetCount && i <= f.requests
    ensures i <= |pages| ==> f.requests <= |pages|
    decreases |pages| - i
  {
    if count >= maxCount || i >= |pages| then FetchState(rows, count, i)
    else if pages[i].status != 200 then FetchState(rows, count, i + 1)
    else
      var rows' := InsertKept(rows, pages[i].tweets, username);
      var count' := count + |Kept(rows.Keys, pages[i].tweets)|;
      if pages[i].nextToken.None? then FetchState(rows', count', i + 1)
      else Fetch(rows', username, pages, i + 1, count', maxCount)
  }

  /** The fetch loop never overwrites or removes a stored row. */
  lemma {:induction false} FetchKeepsRows(rows: Rows, username: string, pages: seq<Page>, i: nat, count: nat, maxCount: nat)
    ensures var f := Fetch(rows, username, pages, i, count, maxCount);
      rows.Keys <= f.rows.Keys && forall id :: id in rows ==> f.rows[id] == rows[id]
    decreases |pages| - i
  {
    var f := Fetch(rows, username, pages, i, count, maxCount);
    if count < maxCount && i < |pages| && pages[i].status == 200 {
      var rows' := InsertKept(rows, pages[i].tweets, username);
      var count' := count + |Kept(rows.Keys, pages[i].tweets)|;
      InsertKeptStoresAll(rows, pages[i].tweets, username);
      if pages[i].nextToken.Some? {
        assert f == Fetch(rows', username, pages, i + 1, count', maxCount);
        FetchKeepsRows(rows', username, pages, i + 1, count', maxCount);
      } else {
        assert f.rows == rows';
      }
    } else {
      assert f.rows == rows;
    }
  }

  /** `tweet_count` rises by exactly the number of tweets added to the table. */
  lemma {:induction false} FetchCountsRows(rows: Rows, username: string, pages: seq<Page>, i: nat, count: nat, maxCount: nat)
    ensures var f := Fetch(rows, username, pages, i, count, maxCount);
      f.tweetCount + |rows| == count + |f.rows|
    decreases |pages| - i
  {
    if count < maxCount && i < |pages| && pages[i].status == 200 {
      var rows' := InsertKept(rows, pages[i].tweets, username);
      var count' := count + |Kept(rows.Keys, pages[i].tweets)|;
      InsertKeptGrowsByKept(rows, pages[i].tweets, username);
      FetchUnfold(rows, username, pages, i, count, maxCount);
      if pages[i].nextToken.Some? {
        FetchCountsRows(rows', username, pages, i + 1, count', maxCount);
      }
    }
  }

  /** The loop stops at a failed page, at a page without a next token, or
      once `tweet_count` reaches `max_count`; every earlier page succeeded
      and had a next token, and when pagination ends no request goes past
      the last page. */
  lemma {:induction false} FetchStops(rows: Rows, username: string, pages: seq<Page>, i: nat, count: nat, maxCount: nat)
    requires i <= |pages|
    ensures var f := Fetch(rows, username, pages, i, count, maxCount);
      && count <= f.tweetCount
      && i <= f.requests <= |pages|
      && (forall j :: i <= j < f.requests - 1 ==> !LastPage(pages[j]))
      && (f.tweetCount >= maxCount || f.requests == |pages| || (f.requests > i && LastPage(pages[f.requests - 1])))
    decreases |pages| - i
  {
    var f := Fetch(rows, username, pages, i, count, maxCount);
    if count >= maxCount || i == |pages| {
      assert f == FetchState(rows, count, i);
    } else if LastPage(pages[i]) {
      assert f.requests == i + 1 && count <= f.tweetCount;
    } else {
      var rows' := InsertKept(rows, pages[i].tweets, username);
      var count' := count + |Kept(rows.Keys, pages[i].tweets)|;
      FetchGoesOn(rows, rows', username, pages, i, count, count', maxCount);
      FetchStops(rows', username, pages, i + 1, count', maxCount);
    }
  }

  /** A stored page with a next token leads to the next request, from the
      rows and the count that storing it produced. */
  lemma FetchGoesOn(rows: Rows, rows': Rows, username: string, pages: seq<Page>, i: nat, count: nat, count': nat, maxCount: nat)
    requires count < maxCount && i < |pages| && pages[i].status == 200 && pages[i].nextToken.Some?
    requires rows' == InsertKept(rows, pages[i].tweets, username)
    requires count' == count + |Kept(rows.Keys, pages[i].tweets)|
    ensures Fetch(rows, username, pages, i, count, maxCount) == Fetch(rows', username, pages, i + 1, count', maxCount)
  {
  }

  /** One request of the fetch loop, from a state where the loop goes on. */
  lemma FetchUnfold(rows: Rows, username: string, pages: seq<Page>, i: nat, count: nat, maxCount: nat)
    requires count < maxCount && i < |pages|
    ensures var rows' := InsertKept(rows, pages[i].tweets, username);
      var count' := count + |Kept(rows.Keys, pages[i].tweets)|;
      Fetch(rows, username, pages, i, count, maxCount)
      == if pages[i].status != 200 then FetchState(rows, count, i + 1)
         else if pages[i].nextToken.None? then FetchState(rows', count', i + 1)
         else Fetch(rows', username, pages, i + 1, count', maxCount)
  {
  }
}
