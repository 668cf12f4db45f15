/**
 * bot/mention_handler.py: how one mention is answered. The handler is a
 * function of the mention and of what its external calls return; its
 * result is the sequence of external calls it makes, in order. A call that
 * raises ends the branch it is in, and the handler's outer `except` turns
 * the exception into a log line, so the handler itself never raises.
 */
module MentionHandler {
  import opened Twitter
  import opened Config

  /** A mention as the platform delivers it; `entityMentions` are the
      usernames of `entities["mentions"]`, in order. */
  datatype Mention = Mention(id: TweetId, text: string, conversationId: Option<TweetId>,
                             entityMentions: seq<string>)

  /** `get_tweet(conversation_id).data`: a tweet, no data, or an exception. */
  datatype ConversationLookup = Found(text: string) | NoData | LookupRaised

  /** `run_consistency_analysis(target)`: a report, or an exception. */
  datatype Analysis = Report(text: string) | AnalysisRaised

  /** What the external calls of one mention return. `replyPosted` is
      whether the first `create_tweet` returns normally, `inventoryShown`
      whether `show_inventory` does. */
  datatype Env = Env(conversation: ConversationLookup, completion: Completion,
                     analysis: Analysis, replyPosted: bool, inventoryShown: bool)

  /** The external calls of the handler. */
  datatype Action =
    | GetConversation(conversationId: TweetId)
    | Generate(sourceText: string)
    | CreateTweet(text: string, inReplyTo: TweetId)
    | AwardItem(username: string, item: string)
    | ShowInventory(username: string, tweetId: TweetId)
    | SendDirectMessage(username: string, message: string)
    | RunAnalysis(target: string)

  const GENERATION_FALLBACK: string :=
    "The spirit of $PIG watches. The words are tangled today. Try summoning again."

  /** ---------- `str.lower()` and `in` on strings ---------- */

  /** Lower-casing of one character (ASCII letters; every other character is kept). */
  function LowerChar(c: char): (r: char)
    ensures !('A' <= r <= 'Z')
    ensures 'A' <= c <= 'Z' ==> r as int == c as int + ('a' as int - 'A' as int)
    ensures 'a' <= c <= 'z' || !('A' <= c <= 'Z') ==> r == c
  {
    if 'A' <= c <= 'Z' then (c as int - 'A' as int + 'a' as int) as char else c
  }

  function Lower(s: string): (r: string)
    ensures |r| == |s|
    ensures forall i :: 0 <= i < |s| ==> r[i] == LowerChar(s[i])
  {
    seq(|s|, i requires 0 <= i < |s| => LowerChar(s[i]))
  }

  predicate OccursAt(s: string, p: string, i: int)
  {
    0 <= i && i + |p| <= |s| && s[i..i + |p|] == p
  }

  /** Python's `p in s` for strings. */
  predicate Contains(s: string, p: string)
  {
    exists i | 0 <= i <= |s| :: OccursAt(s, p, i)
  }

  predicate OccursAtIgnoringCase(s: string, p: string, i: int)
  {
    0 <= i && i + |p| <= |s| && forall j :: 0 <= j < |p| ==> LowerChar(s[i + j]) == p[j]
  }

  /** `p` occurs in `s` when upper and lower case letters of `s` are not told apart. */
  predicate ContainsIgnoringCase(s: string, p: string)
  {
    exists i | 0 <= i <= |s| :: OccursAtIgnoringCase(s, p, i)
  }

  /** `"#pigID" in text.lower()` is never true: the literal holds the
      upper-case letters I and D, and a lower-cased text holds none. */
  lemma PigIdNeverMatches(text: string)
    ensures !Contains(Lower(text), "#pigID")
  {
    var l := Lower(text);
    forall i | 0 <= i <= |l| ensures !OccursAt(l, "#pigID", i) {
      if i + 6 <= |l| {
        assert l[i..i + 6][4] == l[i + 4] == LowerChar(text[i + 4]);
      }
    }
  }

  /** `"#pigme" in text.lower()` finds `#pigme` in any mix of cases. */
  lemma PigmeIgnoresCase(text: string)
    ensures Contains(Lower(text), "#pigme") <==> ContainsIgnoringCase(text, "#pigme")
  {
    var l := Lower(text);
    var p := "#pigme";
    forall i | 0 <= i <= |text| ensures OccursAt(l, p, i) <==> OccursAtIgnoringCase(text, p, i) {
      if i + |p| <= |text| {
        var w := l[i..i + |p|];
        forall j | 0 <= j < |p| ensures w[j] == LowerChar(text[i + j]) {
          assert w[j] == l[i + j];
        }
      }
    }
  }

  /** ---------- get_mention_conversation_tweet ---------- */

  /** A Python int is false when it is 0. */
  predicate HasConversationId(m: Mention)
  {
    m.conversationId.Some? && m.conversationId.value != 0
  }

  /** The text of the conversation tweet, or None when the mention has no
      (truthy) conversation id, the lookup has no data, or it raised. */
  function GetMentionConversationTweet(m: Mention, lookup: ConversationLookup): (r: Option<string>)
    ensures r.Some? <==> HasConversationId(m) && lookup.Found?
    ensures r.Some? ==> r.value == lookup.text
  {
    if HasConversationId(m) then
      match lookup
      case Found(t) => Some(t)
      case NoData => None
      case LookupRaised => None
    else None
  }

  /** The text a reply is generated from: the conversation tweet's when one
      is retrieved, the mention's own otherwise. */
  function SourceText(m: Mention, lookup: ConversationLookup): (r: string)
    ensures HasConversationId(m) && lookup.Found? ==> r == lookup.text
    ensures !HasConversationId(m) || !lookup.Found? ==> r == m.text
  {
    match GetMentionConversationTweet(m, lookup)
    case Some(t) => t
    case None => m.text
  }

  /** ---------- generate_response ---------- */

  /** The reply text: the model's answer cut to its first 280 characters, or
      the fixed fallback when the model call raises. */
  function GenerateResponse(c: Completion): (r: string)
    ensures |r| <= TWEET_LIMIT
    ensures c.CompletionRaised? ==> r == GENERATION_FALLBACK
    ensures c.Completed? ==> r <= c.content && |r| == if |c.content| <= TWEET_LIMIT then |c.content| else TWEET_LIMIT
  {
    match c
    case Completed(content) => Prefix(content, TWEET_LIMIT)
    case CompletionRaised => GENERATION_FALLBACK
  }

  /** ---------- the #pigID branch ---------- */

  /** The tagged usernames of the mention, in order, without its author. */
  function TaggedUsernames(entityMentions: seq<string>, author: string): (r: seq<string>)
    ensures |r| <= |entityMentions|
    ensures forall u :: u in r <==> u in entityMentions && u != author
    ensures r != [] ==> exists i :: 0 <= i < |entityMentions| && entityMentions[i] == r[0]
                          && forall j :: 0 <= j < i ==> entityMentions[j] == author
    ensures r == [] ==> forall j :: 0 <= j < |entityMentions| ==> entityMentions[j] == author
  {
    if entityMentions == [] then []
    else
      var rest := TaggedUsernames(entityMentions[1..], author);
      if entityMentions[0] != author then [entityMentions[0]] + rest else rest
  }

  /** `u` occurs in `e` at some position before an occurrence of `v`. */
  predicate OccursBefore(e: seq<string>, u: string, v: string)
  {
    exists a, b :: 0 <= a < b < |e| && e[a] == u && e[b] == v
  }

  /** Any two elements of `r` occur in `e` in the same order. */
  predicate KeepsOrderOf(r: seq<string>, e: seq<string>)
  {
    forall i, j :: 0 <= i < j < |r| ==> OccursBefore(e, r[i], r[j])
  }

  /** Putting an element in front of `e` keeps every order `e` had. */
  lemma KeepsOrderSkip(r: seq<string>, x: string, e: seq<string>)
    requires KeepsOrderOf(r, e)
    ensures KeepsOrderOf(r, [x] + e)
  {
    forall i, j | 0 <= i < j < |r|
      ensures OccursBefore([x] + e, r[i], r[j])
    {
      var a, b :| 0 <= a < b < |e| && e[a] == r[i] && e[b] == r[j];
      assert ([x] + e)[a + 1] == r[i] && ([x] + e)[b + 1] == r[j];
    }
  }

  /** Putting the same element in front of both keeps the order. */
  lemma KeepsOrderTake(r: seq<string>, x: string, e: seq<string>)
    requires KeepsOrderOf(r, e)
    requires forall u :: u in r ==> u in e
    ensures KeepsOrderOf([x] + r, [x] + e)
  {
    var r1, e1 := [x] + r, [x] + e;
    forall i, j | 0 <= i < j < |[x] + r|
      ensures OccursBefore([x] + e, ([x] + r)[i], ([x] + r)[j])
    {
      if i == 0 {
        assert r1[j] == r[j - 1] && r[j - 1] in r;
        var b :| 0 <= b < |e| && e[b] == r[j - 1];
        assert e1[0] == r1[i] && e1[b + 1] == r1[j];
      } else {
        assert r1[i] == r[i - 1] && r1[j] == r[j - 1];
        var a, b :| 0 <= a < b < |e| && e[a] == r[i - 1] && e[b] == r[j - 1];
        assert e1[a + 1] == r1[i] && e1[b + 1] == r1[j];
      }
    }
  }

  /** The tagged users keep the order in which they are tagged. */
  lemma {:induction false} TaggedUsernamesKeepsOrder(e: seq<string>, author: string)
    ensures KeepsOrderOf(TaggedUsernames(e, author), e)
    decreases |e|
  {
    if e != [] {
      var x, e' := e[0], e[1..];
      assert e == [x] + e';
      TaggedUsernamesKeepsOrder(e', author);
      var rest := TaggedUsernames(e', author);
      if x == author {
        KeepsOrderSkip(rest, x, e');
      } else {
        KeepsOrderTake(rest, x, e');
      }
    }
  }

  /** Every user other than the author is kept as many times as tagged,
      and the author not at all. */
  lemma {:induction false} TaggedUsernamesKeepsTags(e: seq<string>, author: string)
    ensures multiset(TaggedUsernames(e, author))[author] == 0
    ensures forall u :: u != author ==> multiset(TaggedUsernames(e, author))[u] == multiset(e)[u]
    decreases |e|
  {
    if e != [] {
      var x, e' := e[0], e[1..];
      assert e == [x] + e';
      TaggedUsernamesKeepsTags(e', author);
      var rest := TaggedUsernames(e', author);
      if x != author {
        assert TaggedUsernames(e, author) == [x] + rest;
      }
    }
  }

  function PleaseTagText(author: string): string
  {
    "@" + author + ", please tag a user after #pigID to analyze."
  }

  function AnalysisFallbackText(author: string, target: string): string
  {
    "@" + author + ", there was an issue analyzing @" + target + "'s consistency. Please try again later."
  }

  /** The body of the `#pigID` branch: with no tagged user, the fixed
      "please tag a user" reply and no analysis; otherwise the analysis of
      the first tagged user, its report posted, and when the analysis or
      that post raises, a fallback reply naming both the author and the
      target. */
  function PigIdBranch(m: Mention, author: string, env: Env): (r: seq<Action>)
    ensures TaggedUsernames(m.entityMentions, author) == [] ==>
              r == [CreateTweet(PleaseTagText(author), m.id)]
    ensures TaggedUsernames(m.entityMentions, author) != [] ==>
              && |r| > 1 && r[0] == RunAnalysis(TaggedUsernames(m.entityMentions, author)[0])
              && (forall a :: a in r && a.CreateTweet? ==> a.inReplyTo == m.id)
              && (env.analysis.Report? && env.replyPosted ==>
                    r == [r[0], CreateTweet(env.analysis.text, m.id)])
              && (env.analysis.AnalysisRaised? || !env.replyPosted ==>
                    r[|r| - 1] == CreateTweet(AnalysisFallbackText(author, TaggedUsernames(m.entityMentions, author)[0]), m.id))
    ensures forall a :: a in r ==> !a.AwardItem? && !a.GetConversation?
  {
    var tagged := TaggedUsernames(m.entityMentions, author);
    if tagged == [] then
      [CreateTweet(PleaseTagText(author), m.id)]
    else
      var target := tagged[0];
      var fallback := [CreateTweet(AnalysisFallbackText(author, target), m.id)];
      match env.analysis
      case AnalysisRaised => [RunAnalysis(target)] + fallback
      case Report(text) =>
        if env.replyPosted then [RunAnalysis(target), CreateTweet(text, m.id)]
        else [RunAnalysis(target), CreateTweet(text, m.id)] + fallback
  }

  /** ---------- handle_mention ---------- */

  predicate IsPigId(m: Mention)
  {
    Contains(Lower(m.text), "#pigID")
  }

  predicate IsPigme(m: Mention)
  {
    Contains(Lower(m.text), "#pigme")
  }

  function InventoryDmText(author: string): string
  {
    "Hello @" + author + ", here\U{00E2}\U{20AC}\U{2122}s your inventory update from the Pig bot!"
  }

  function DefaultReplyText(author: string, c: Completion): string
  {
    "@" + author + ", " + GenerateResponse(c)
  }

  /** handle_mention(mention, api, username, current_reward). */
  function HandleMention(m: Mention, author: string, currentReward: string, env: Env): (r: seq<Action>)
    ensures r != []
    ensures HasConversationId(m) ==> r[0] == GetConversation(m.conversationId.value)
    ensures !HasConversationId(m) ==> !r[0].GetConversation?
    ensures forall i :: 0 < i < |r| ==> !r[i].GetConversation?
  {
    var lookup := if HasConversationId(m) then [GetConversation(m.conversationId.value)] else [];
    var sourceText := SourceText(m, env.conversation);
    var branch :=
      if IsPigId(m) then
        PigIdBranch(m, author, env)
      else if IsPigme(m) then
        [ShowInventory(author, m.id)]
          + (if env.inventoryShown then [SendDirectMessage(author, InventoryDmText(author))] else [])
      else
        [Generate(sourceText), CreateTweet(DefaultReplyText(author, env.completion), m.id)]
          + (if env.replyPosted then [AwardItem(author, currentReward)] else []);
    assert branch != [] && forall a :: a in branch ==> !a.GetConversation?;
    lookup + branch
  }

  /** Every mention takes the `#pigme` branch or the default branch: the
      analysis never runs and a `#pigID` mention is answered like any other. */
  lemma HandleMentionNeverAnalyses(m: Mention, author: string, currentReward: string, env: Env)
    ensures forall a :: a in HandleMention(m, author, currentReward, env) ==> !a.RunAnalysis?
  {
    PigIdNeverMatches(m.text);
  }

  /** A `#pigme` mention, however it is capitalised, shows the inventory and
      sends the DM when that returns, and is never awarded. */
  lemma PigmeBranch(m: Mention, author: string, currentReward: string, env: Env)
    requires ContainsIgnoringCase(m.text, "#pigme")
    ensures ShowInventory(author, m.id) in HandleMention(m, author, currentReward, env)
    ensures env.inventoryShown <==>
              SendDirectMessage(author, InventoryDmText(author)) in HandleMention(m, author, currentReward, env)
    ensures forall a :: a in HandleMention(m, author, currentReward, env) ==> !a.AwardItem? && !a.CreateTweet?
  {
    PigIdNeverMatches(m.text);
    PigmeIgnoresCase(m.text);
  }

  /** Any other mention gets exactly the reply "@<author>, <generated text>"
      in reply to the mention, generated from the conversation tweet's text
      when there is one; the author is awarded the current reward only when
      the reply was posted, and only after it. */
  lemma DefaultBranch(m: Mention, author: string, currentReward: string, env: Env)
    requires !ContainsIgnoringCase(m.text, "#pigme")
    ensures var r := HandleMention(m, author, currentReward, env);
      && Generate(SourceText(m, env.conversation)) in r
      && (forall a :: a in r && a.CreateTweet? ==> a == CreateTweet("@" + author + ", " + GenerateResponse(env.completion), m.id))
      && CreateTweet(DefaultReplyText(author, env.completion), m.id) in r
      && (AwardItem(author, currentReward) in r <==> env.replyPosted)
      && (forall i :: 0 <= i < |r| && r[i].AwardItem? ==>
            r[i] == AwardItem(author, currentReward) && i > 0 && r[i - 1].CreateTweet?)
      && (forall a :: a in r ==> !a.ShowInventory? && !a.SendDirectMessage?)
  {
    PigIdNeverMatches(m.text);
    PigmeIgnoresCase(m.text);
  }
}
