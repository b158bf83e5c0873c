/** `monitor_tweet` (scripts/monitor.py): parse the URL, read the replies from the fetched
    snapshot, count the questions, and either list every reply or, in watch mode, list
    the replies not seen at the previous check and record the current ones in the saved
    state under `tweet_<id>`. */
module Monitor {
  import opened Wrappers
  import opened Text
  import opened Sequences
  import opened Replies
  import opened TweetUrl

  /** The saved entry of one thread: its replies and when they were read. */
  datatype ThreadState = ThreadState(replies: seq<Reply>, lastChecked: string)

  /** The saved state: thread entries by key. */
  type State = map<string, ThreadState>

  /** The listing part of the result: every reply, or in watch mode only the new ones. */
  datatype Listing =
    | AllReplies(replies: seq<Reply>)
    | NewSinceLastCheck(newReplies: seq<Reply>, newCount: nat)

  /** What happened after the URL was parsed: the fetch failed, or the replies were read. */
  datatype Outcome =
    | FetchFailed(error: string)
    | Fetched(totalReplies: nat, questions: seq<Reply>, questionCount: nat, listing: Listing)

  /** The result dictionary `monitor_tweet` returns. */
  datatype Report = Report(tweetUrl: string, username: string, tweetId: string,
                           checkedAt: string, outcome: Outcome)

  const FetchError := "Failed to fetch replies (is Camofox running?)"

  /** The state key of a thread: `f"tweet_{tweet_id}"`. */
  function StateKey(tweetId: string): string {
    "tweet_" + tweetId
  }

  /** The identity of a reply across checks: `f"{author}:{text}"`. */
  function ReplyKey(r: Reply): string {
    r.author + ":" + r.text
  }

  /** The keys of the replies saved for a thread, or none when it has no entry. */
  function PriorKeys(state: State, key: string): set<string> {
    if key in state then set r | r in state[key].replies :: ReplyKey(r) else {}
  }

  /** `[r for r in replies if f"{r['author']}:{r['text']}" not in prev_authors]` */
  function NewReplies(replies: seq<Reply>, prior: set<string>): seq<Reply> {
    Filter(replies, (r: Reply) => ReplyKey(r) !in prior)
  }

  /** `[r for r in replies if r.get("is_question")]` */
  function QuestionsOf(replies: seq<Reply>): seq<Reply> {
    Filter(replies, (r: Reply) => r.isQuestion)
  }

  /** `monitor_tweet(url, watch)`, with the outcome of the fetch given as the snapshot
      text (or `None` when the fetch failed), the clock reading given as `checkedAt`, and
      the saved state given in `state` and returned in `state'`. A URL without a match
      raises, which is the `Failure` result. */
  method MonitorTweet(url: string, watch: bool, checkedAt: string, snapshot: Option<string>,
                      state: State)
    returns (result: Result<Report, string>, state': State)
    ensures ParseTweetUrl(url).Failure? ==>
      result == Failure(UnparsableMessage(url)) && state' == state
    ensures ParseTweetUrl(url).Success? ==>
      && result.Success?
      && result.value.tweetUrl == url
      && (result.value.username, result.value.tweetId) == ParseTweetUrl(url).value
      && result.value.checkedAt == checkedAt
    ensures ParseTweetUrl(url).Success? && snapshot.None? ==>
      result.value.outcome == FetchFailed(FetchError) && state' == state
    ensures ParseTweetUrl(url).Success? && snapshot.Some? ==>
      var replies := Extract(SplitLines(snapshot.value), ParseTweetUrl(url).value.0);
      var key := StateKey(ParseTweetUrl(url).value.1);
      var outcome := result.value.outcome;
      && outcome.Fetched?
      && outcome.totalReplies == |replies|
      && outcome.questions == QuestionsOf(replies)
      && outcome.questionCount == |outcome.questions|
      && (watch ==>
            && outcome.listing == NewSinceLastCheck(NewReplies(replies, PriorKeys(state, key)),
                                                    |NewReplies(replies, PriorKeys(state, key))|)
            && state' == state[key := ThreadState(replies, checkedAt)])
      && (!watch ==> outcome.listing == AllReplies(replies) && state' == state)
  {
    state' := state;
    var parsed := ParseTweetUrl(url);
    if parsed.Failure? {
      return Failure(parsed.error), state';
    }
    var (username, tweetId) := parsed.value;
    if snapshot.None? {
      return Success(Report(url, username, tweetId, checkedAt, FetchFailed(FetchError))), state';
    }
    var replies := ParseReplies(snapshot.value, username);
    var questions := QuestionsOf(replies);
    var listing;
    if watch {
      var key := StateKey(tweetId);
      var prior: set<string> := {};
      if key in state {
        prior := set r | r in state[key].replies :: ReplyKey(r);
      }
      var newReplies := NewReplies(replies, prior);
      listing := NewSinceLastCheck(newReplies, |newReplies|);
      state' := state[key := ThreadState(replies, checkedAt)];
    } else {
      listing := AllReplies(replies);
    }
    var outcome := Fetched(|replies|, questions, |questions|, listing);
    result := Success(Report(url, username, tweetId, checkedAt, outcome));
  }

  // ---------------------------------------------------------------------------
  // Properties of the watch-mode diff

  /** The new replies are, in their original order, exactly the replies whose key was not
      saved before, each as many times as it occurs in the current replies. */
  lemma NewRepliesSpec(replies: seq<Reply>, prior: set<string>)
    ensures IsSubsequence(NewReplies(replies, prior), replies)
    ensures forall r :: r in NewReplies(replies, prior) <==> r in replies && ReplyKey(r) !in prior
    ensures forall r :: multiset(NewReplies(replies, prior))[r]
                     == if ReplyKey(r) !in prior then multiset(replies)[r] else 0
  {
    FilterCounts(replies, (r: Reply) => ReplyKey(r) !in prior);
  }

  /** The questions are, in their original order, exactly the replies flagged as
      questions, each as many times as it occurs in the replies. */
  lemma QuestionsOfSpec(replies: seq<Reply>)
    ensures IsSubsequence(QuestionsOf(replies), replies)
    ensures forall r :: r in QuestionsOf(replies) <==> r in replies && r.isQuestion
    ensures forall r :: multiset(QuestionsOf(replies))[r]
                     == if r.isQuestion then multiset(replies)[r] else 0
  {
    FilterCounts(replies, (r: Reply) => r.isQuestion);
  }

  /** With no saved entry for the thread, every reply is new. */
  lemma FirstCheckAllNew(replies: seq<Reply>, state: State, key: string)
    requires key !in state
    ensures NewReplies(replies, PriorKeys(state, key)) == replies
  {
    FilterKeepsAll(replies, (r: Reply) => ReplyKey(r) !in PriorKeys(state, key));
  }

  /** Checking again after the state was saved, with the same replies, finds nothing new. */
  lemma SecondCheckNothingNew(replies: seq<Reply>, state: State, key: string, checkedAt: string)
    ensures NewReplies(replies, PriorKeys(state[key := ThreadState(replies, checkedAt)], key)) == []
  {
    var prior := PriorKeys(state[key := ThreadState(replies, checkedAt)], key);
    assert forall r :: r in replies ==> ReplyKey(r) in prior;
  }

  /** Saving a check as `MonitorTweet` does leaves what a later check of any other
      thread compares against unchanged, and makes the checked thread's saved keys those
      of the current replies. */
  lemma SaveChangesOneEntry(state: State, key: string, replies: seq<Reply>, checkedAt: string)
    ensures forall k :: k != key ==>
      PriorKeys(state[key := ThreadState(replies, checkedAt)], k) == PriorKeys(state, k)
    ensures PriorKeys(state[key := ThreadState(replies, checkedAt)], key)
         == set r | r in replies :: ReplyKey(r)
  {
  }

  /** When no author holds a colon, the string key identifies the (author, text) pair. */
  lemma {:induction false} ReplyKeyInjective(a: Reply, b: Reply)
    requires ':' !in a.author && ':' !in b.author
    ensures ReplyKey(a) == ReplyKey(b) <==> SameKey(a, b)
  {
    if ReplyKey(a) == ReplyKey(b) {
      var ka, kb := ReplyKey(a), ReplyKey(b);
      IndexOfAfter(a.author, ':', a.text);
      IndexOfAfter(b.author, ':', b.text);
      assert |a.author| == IndexOf(ka, ':') == IndexOf(kb, ':') == |b.author|;
      assert a.author == ka[..|a.author|] == kb[..|b.author|] == b.author;
      assert a.text == ka[|a.author| + 1..] == kb[|b.author| + 1..] == b.text;
    }
  }

  /** A reply from a previous extraction, and one from this extraction, have the same key
      exactly when they have the same (author, text) pair: authors are "@" and word
      characters, so they never hold a colon. */
  lemma WellFormedKeys(a: Reply, b: Reply, owner: string, owner': string)
    requires WellFormed(a, owner) && WellFormed(b, owner')
    ensures ReplyKey(a) == ReplyKey(b) <==> SameKey(a, b)
  {
    assert a.author == [a.author[0]] + a.author[1..];
    assert b.author == [b.author[0]] + b.author[1..];
    ReplyKeyInjective(a, b);
  }

  /** Over extracted replies, the string-keyed diff is the pair-keyed diff: a reply is
      new exactly when no saved reply has its author and text. The saved replies may come
      from a check whose URL named another handle, since the state key is the id alone. */
  lemma NewRepliesByPair(replies: seq<Reply>, saved: seq<Reply>, owner: string, owner': string)
    requires forall r :: r in replies ==> WellFormed(r, owner)
    requires forall r :: r in saved ==> WellFormed(r, owner')
    ensures forall r :: r in replies ==>
      (r in NewReplies(replies, set s | s in saved :: ReplyKey(s)) <==> !Seen(saved, r.author, r.text))
  {
    var prior := set s | s in saved :: ReplyKey(s);
    forall r | r in replies
      ensures r in NewReplies(replies, prior) <==> !Seen(saved, r.author, r.text)
    {
      if ReplyKey(r) in prior {
        var s :| s in saved && ReplyKey(s) == ReplyKey(r);
        WellFormedKeys(s, r, owner', owner);
      }
      if Seen(saved, r.author, r.text) {
        var s :| s in saved && s.author == r.author && s.text == r.text;
        assert ReplyKey(s) == ReplyKey(r);
      }
    }
  }

  /** The listing of a watch-mode check on a thread saved before, with one reply added
      since, holds that reply alone. */
  lemma OneNewReplyExample(a: Reply, b: Reply, state: State, key: string, checkedAt: string)
    requires ReplyKey(a) != ReplyKey(b)
    requires state == map[key := ThreadState([a], checkedAt)]
    ensures NewReplies([a, b], PriorKeys(state, key)) == [b]
  {
    var prior := PriorKeys(state, key);
    assert prior == {ReplyKey(a)};
    assert [a, b][..1] == [a];
    assert [a][..0] == [];
  }
}
