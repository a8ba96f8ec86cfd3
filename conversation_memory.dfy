/** The conversations table of src/memory.py: one row per exchange with the
    user's message, the (possibly truncated) AI response and a creation time;
    recent retrieval ranked by message length, eviction down to the latest N
    rows, and fuzzy search over user messages. */
module ConversationMemory {
  import opened Tables

  /** Responses longer than this are cut before they are stored. */
  const MAX_RESPONSE_LENGTH := 500
  const TRUNCATION_MARKER := "... (truncated)"
  /** search_conversation keeps rows whose user message scores above this. */
  const SEARCH_THRESHOLD: real := 70.0
  const DEFAULT_RECENT_LIMIT: nat := 10
  const DEFAULT_KEEP_LATEST: nat := 100
  const DEFAULT_SEARCH_LIMIT: nat := 5

  datatype Conversation = Conversation(id: int, userMessage: string, aiResponse: string, timestamp: int)

  /** The three columns the queries select for each row. */
  datatype ConversationRow = ConversationRow(userMessage: string, aiResponse: string, timestamp: int)

  function IdOf(c: Conversation): int { c.id }
  function ByTimestamp(c: Conversation): Key { (c.timestamp, 0) }
  function ByLengthThenTimestamp(c: Conversation): Key { (|c.userMessage|, c.timestamp) }

  function RowOf(c: Conversation): ConversationRow
  {
    ConversationRow(c.userMessage, c.aiResponse, c.timestamp)
  }

  function Rows(cs: seq<Conversation>): (v: seq<ConversationRow>)
    ensures |v| == |cs|
    ensures forall i :: 0 <= i < |v| ==>
      v[i] == ConversationRow(cs[i].userMessage, cs[i].aiResponse, cs[i].timestamp)
  {
    seq(|cs|, i requires 0 <= i < |cs| => RowOf(cs[i]))
  }

  // ---------------------------------------------------------------------
  // store_conversation: the truncation policy
  // ---------------------------------------------------------------------

  /** The response as stored: unchanged up to the length cap; beyond it, the
      first MAX_RESPONSE_LENGTH characters followed by the marker. */
  function Truncated(response: string): (r: string)
    ensures |r| <= MAX_RESPONSE_LENGTH + |TRUNCATION_MARKER|
    ensures |response| <= MAX_RESPONSE_LENGTH ==> r == response
    ensures |response| > MAX_RESPONSE_LENGTH ==>
      && |r| == MAX_RESPONSE_LENGTH + |TRUNCATION_MARKER|
      && StartsWith(r, response[..MAX_RESPONSE_LENGTH])
      && EndsWith(r, TRUNCATION_MARKER)
  {
    if |response| > MAX_RESPONSE_LENGTH then response[..MAX_RESPONSE_LENGTH] + TRUNCATION_MARKER
    else response
  }

  /** Storing a stored response again does not cut it further. */
  lemma TruncatedIdempotent(response: string)
    ensures Truncated(Truncated(response)) == Truncated(response)
  {
    if |response| > MAX_RESPONSE_LENGTH {
      var once := Truncated(response);
      assert once[..MAX_RESPONSE_LENGTH] == response[..MAX_RESPONSE_LENGTH];
    }
  }

  /** Whatever its length, the stored response begins like the original. */
  lemma TruncatedKeepsPrefix(response: string)
    ensures var n := Min(|response|, MAX_RESPONSE_LENGTH);
      StartsWith(Truncated(response), response[..n])
  {
    if |response| > MAX_RESPONSE_LENGTH {
      assert Truncated(response)[..MAX_RESPONSE_LENGTH] == response[..MAX_RESPONSE_LENGTH];
    }
  }

  // ---------------------------------------------------------------------
  // get_recent_conversations
  // ---------------------------------------------------------------------

  /** ORDER BY LENGTH(user_message) DESC, timestamp DESC LIMIT n */
  function Recent(cs: seq<Conversation>, limit: nat): seq<Conversation>
  {
    TopK(cs, ByLengthThenTimestamp, limit)
  }

  /** At most `limit` rows (fewer only when the table is smaller), longest
      user message first and, among equal lengths, newest first. */
  function GetRecentConversations(cs: seq<Conversation>, limit: nat := DEFAULT_RECENT_LIMIT): (r: seq<ConversationRow>)
    ensures |r| == Min(limit, |cs|)
    ensures forall i, j :: 0 <= i < j < |r| ==>
      || |r[i].userMessage| > |r[j].userMessage|
      || (|r[i].userMessage| == |r[j].userMessage| && r[i].timestamp >= r[j].timestamp)
  {
    var top := Recent(cs, limit);
    assert forall i, j :: 0 <= i < j < |top| ==> RanksAtLeast(ByLengthThenTimestamp(top[i]), ByLengthThenTimestamp(top[j]));
    Rows(top)
  }

  /** The rows chosen come from the table, and no row left out ranks above
      one chosen. */
  lemma RecentIsTop(cs: seq<Conversation>, limit: nat)
    ensures var top := Recent(cs, limit);
      && GetRecentConversations(cs, limit) == Rows(top)
      && (forall i :: 0 <= i < |top| ==> top[i] in cs)
      && (forall x, i :: x in cs && x !in top && 0 <= i < |top| ==>
            || |top[i].userMessage| > |x.userMessage|
            || (|top[i].userMessage| == |x.userMessage| && top[i].timestamp >= x.timestamp))
  {
    var top := Recent(cs, limit);
    forall i | 0 <= i < |top| ensures top[i] in cs {
      assert top[i] in multiset(top);
    }
    forall x, i | x in cs && x !in top && 0 <= i < |top|
      ensures || |top[i].userMessage| > |x.userMessage|
              || (|top[i].userMessage| == |x.userMessage| && top[i].timestamp >= x.timestamp)
    {
      assert RanksAtLeast(ByLengthThenTimestamp(top[i]), ByLengthThenTimestamp(x));
    }
  }

  // ---------------------------------------------------------------------
  // delete_old_conversations
  // ---------------------------------------------------------------------

  /** SELECT id FROM conversations ORDER BY timestamp DESC LIMIT n */
  function LatestIds(cs: seq<Conversation>, keep: nat): set<int>
  {
    set x | x in TopK(cs, ByTimestamp, keep) :: x.id
  }

  function IdIn(ids: set<int>): Conversation -> bool
  {
    (c: Conversation) => c.id in ids
  }

  /** Within a table of distinct ids, keeping the rows whose id the top-k
      query selected keeps exactly the top-k rows. */
  lemma KeptAreLatest(cs: seq<Conversation>, keep: nat)
    requires Increasing(cs, IdOf)
    ensures var top := TopK(cs, ByTimestamp, keep);
      multiset(Filter(cs, IdIn(LatestIds(cs, keep)))) == multiset(top)
  {
    var top := TopK(cs, ByTimestamp, keep);
    var ids := LatestIds(cs, keep);
    var kept := Filter(cs, IdIn(ids));
    forall x ensures multiset(kept)[x] == multiset(top)[x] {
      FilterMultiset(cs, IdIn(ids), x);
      IncreasingOccursOnce(cs, IdOf, x);
      if x in top {
        assert x in multiset(top);
        assert x.id in ids;
      } else if x.id in ids && x in cs {
        var y :| y in top && y.id == x.id;
        assert y in multiset(top);
        IncreasingKeyIdentifies(cs, IdOf, x, y);
        assert false;
      }
    }
    assert multiset(kept) == multiset(top);
  }

  /** Rows the eviction keeps: those whose id is among the `keep` newest. */
  function Kept(cs: seq<Conversation>, keep: nat): seq<Conversation>
  {
    Filter(cs, IdIn(LatestIds(cs, keep)))
  }

  lemma KeptRanksAtLeastDeleted(cs: seq<Conversation>, keep: nat)
    requires Increasing(cs, IdOf)
    ensures var r := Kept(cs, keep);
      forall x, y :: x in cs && x !in r && y in r ==> x.timestamp <= y.timestamp
  {
    var top := TopK(cs, ByTimestamp, keep);
    var r := Kept(cs, keep);
    KeptAreLatest(cs, keep);
    forall x, y | x in cs && x !in r && y in r ensures x.timestamp <= y.timestamp {
      assert y in multiset(top);
      var i :| 0 <= i < |top| && top[i] == y;
      assert RanksAtLeast(ByTimestamp(top[i]), ByTimestamp(x));
    }
  }

  lemma KeptAllWhenRoomForAll(cs: seq<Conversation>, keep: nat)
    requires Increasing(cs, IdOf)
    requires keep >= |cs|
    ensures Kept(cs, keep) == cs
  {
    var top := TopK(cs, ByTimestamp, keep);
    assert multiset(top) == multiset(cs) by {
      assert |multiset(top)| == |multiset(cs)|;
      assert |multiset(cs) - multiset(top)| == |multiset(cs)| - |multiset(top)|;
    }
    forall x | x in cs ensures IdIn(LatestIds(cs, keep))(x) {
      assert x in multiset(top);
    }
    FilterAll(cs, IdIn(LatestIds(cs, keep)));
  }

  /** The table after DELETE ... WHERE id NOT IN (the `keep` newest ids). */
  function KeepLatest(cs: seq<Conversation>, keep: nat): (r: seq<Conversation>)
    requires Increasing(cs, IdOf)
    ensures |r| == Min(keep, |cs|)
    ensures Increasing(r, IdOf)
    ensures forall x :: x in r ==> x in cs
    ensures forall x, y :: x in cs && x !in r && y in r ==> x.timestamp <= y.timestamp
    ensures keep >= |cs| ==> r == cs
  {
    var top := TopK(cs, ByTimestamp, keep);
    var r := Kept(cs, keep);
    KeptAreLatest(cs, keep);
    FilterIncreasing(cs, IdIn(LatestIds(cs, keep)), IdOf);
    assert |r| == |multiset(r)| == |multiset(top)| == |top|;
    KeptRanksAtLeastDeleted(cs, keep);
    if keep >= |cs| then KeptAllWhenRoomForAll(cs, keep); r else r
  }

  // ---------------------------------------------------------------------
  // search_conversation
  // ---------------------------------------------------------------------

  function Matches(query: string, scorer: Scorer): Conversation -> bool
  {
    (c: Conversation) => scorer(query, c.userMessage) > SEARCH_THRESHOLD
  }

  /** The first `limit` rows, in table order, whose user message scores
      above the threshold; the rows are not re-ranked by score. */
  function SearchConversation(
    cs: seq<Conversation>, query: string, scorer: Scorer, limit: nat := DEFAULT_SEARCH_LIMIT): (r: seq<ConversationRow>)
    ensures |r| <= limit
    ensures forall i :: 0 <= i < |r| ==> scorer(query, r[i].userMessage) > SEARCH_THRESHOLD
    ensures |r| < limit ==> |r| == |Filter(cs, Matches(query, scorer))|
  {
    var hits := Filter(cs, Matches(query, scorer));
    var r := Rows(Limit(hits, limit));
    assert forall i :: 0 <= i < |r| ==> Matches(query, scorer)(Limit(hits, limit)[i]);
    r
  }

  /** The answer is the first `limit` matching rows of the table, in table
      order: row k of the answer is the table row at the k-th matching
      position, the positions being every matching position, increasing. */
  lemma SearchReturnsFirstMatches(cs: seq<Conversation>, query: string, scorer: Scorer, limit: nat)
    ensures var idx := MatchPositions(cs, Matches(query, scorer), |cs|);
      var r := SearchConversation(cs, query, scorer, limit);
      && (forall k, l :: 0 <= k < l < |idx| ==> idx[k] < idx[l])
      && (forall i :: 0 <= i < |cs| && Matches(query, scorer)(cs[i]) <==> i in idx)
      && |r| == Min(limit, |idx|)
      && forall k :: 0 <= k < |r| ==> r[k] == RowOf(cs[idx[k]])
  {
    var p := Matches(query, scorer);
    MatchPositionsSpec(cs, p, |cs|);
    FilterAtMatchPositions(cs, p, |cs|);
    assert cs[..|cs|] == cs;
  }

  /** Rows added later never displace an earlier answer: what a search of
      the table returns is a prefix of what it returns once more rows exist. */
  lemma SearchKeepsTableOrder(
    cs: seq<Conversation>, later: seq<Conversation>, query: string, scorer: Scorer, limit: nat)
    ensures var before := SearchConversation(cs, query, scorer, limit);
      var after := SearchConversation(cs + later, query, scorer, limit);
      |before| <= |after| && after[..|before|] == before
  {
    var p := Matches(query, scorer);
    FilterAppend(cs, later, p);
    var hits := Filter(cs, p);
    var all := Filter(cs + later, p);
    assert all[..|hits|] == hits;
    var n := |Limit(hits, limit)|;
    assert Limit(all, limit)[..n] == Limit(hits, limit);
    assert Rows(Limit(all, limit))[..n] == Rows(Limit(all, limit)[..n]);
  }

  /** A larger limit only extends the answer. */
  lemma SearchLimitPrefix(cs: seq<Conversation>, query: string, scorer: Scorer, small: nat, large: nat)
    requires small <= large
    ensures var short := SearchConversation(cs, query, scorer, small);
      var long := SearchConversation(cs, query, scorer, large);
      |short| <= |long| && long[..|short|] == short
  {
    var hits := Filter(cs, Matches(query, scorer));
    var n := |Limit(hits, small)|;
    assert Limit(hits, large)[..n] == Limit(hits, small);
    assert Rows(Limit(hits, large))[..n] == Rows(Limit(hits, large)[..n]);
  }

  // ---------------------------------------------------------------------
  // The table itself
  // ---------------------------------------------------------------------

  class ConversationStore {
    /** Whether CREATE TABLE conversations has run on this database file. */
    var tableExists: bool
    /** The rows of the conversations table, in insertion (rowid) order. */
    var conversations: seq<Conversation>
    /** The AUTOINCREMENT counter: the id the next insert receives. */
    var nextId: int

    ghost predicate Valid()
      reads this
    {
      && nextId >= 1
      && Increasing(conversations, IdOf)
      && (forall i :: 0 <= i < |conversations| ==> 1 <= conversations[i].id < nextId)
      && (!tableExists ==> conversations == [])
    }

    /** A database file in which no table has been created yet. */
    constructor ()
      ensures Valid() && !tableExists && conversations == [] && nextId == 1
    {
      tableExists := false;
      conversations := [];
      nextId := 1;
    }

    /** init_memory_db: creates the table if absent; an existing table and
        its rows are left as they are. */
    method InitMemoryDb()
      requires Valid()
      modifies this
      ensures Valid() && tableExists
      ensures conversations == old(conversations) && nextId == old(nextId)
    {
      tableExists := true;
    }

    /** store_conversation: appends one row holding the user message and the
        truncated response, stamped `now`. */
    method StoreConversation(userMessage: string, aiResponse: string, now: int)
      requires Valid() && tableExists
      modifies this
      ensures Valid() && tableExists
      ensures conversations == old(conversations) + [Conversation(old(nextId), userMessage, Truncated(aiResponse), now)]
      ensures nextId == old(nextId) + 1
    {
      var response := aiResponse;
      if |response| > MAX_RESPONSE_LENGTH {
        response := response[..MAX_RESPONSE_LENGTH] + TRUNCATION_MARKER;
      }
      conversations := conversations + [Conversation(nextId, userMessage, response, now)];
      nextId := nextId + 1;
    }

    /** delete_old_conversations: keeps only the `keep` newest rows. */
    method DeleteOldConversations(keep: nat := DEFAULT_KEEP_LATEST)
      requires Valid() && tableExists
      modifies this
      ensures Valid() && tableExists
      ensures conversations == KeepLatest(old(conversations), keep) && nextId == old(nextId)
    {
      conversations := KeepLatest(conversations, keep);
    }
  }
}
