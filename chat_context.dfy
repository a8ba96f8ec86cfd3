/** The chat service of src/main.py: a conversations table of (user, yuna)
    exchanges, the newest-first history query, de-duplication of the history
    by user message, and the prompt built from the last unique exchanges. */
module ChatContext {
  import opened Tables

  const PERSONALITY := "I am Yuna, your AI assistant. I assist with insights, memory recall, and intelligent discussions."
  const CONTEXT_HEADING := "\n\nRecent relevant context:\n"
  /** generate_response reads this many exchanges ... */
  const CONTEXT_FETCH_LIMIT: nat := 5
  /** ... and keeps at most this many unique ones. */
  const CONTEXT_TURNS: nat := 3
  const DEFAULT_HISTORY_LIMIT: nat := 10

  datatype Exchange = Exchange(id: int, user: string, yuna: string, timestamp: int)

  /** The {"user": ..., "yuna": ...} entry a history query returns per row. */
  datatype Turn = Turn(user: string, yuna: string)

  function IdOf(e: Exchange): int { e.id }
  function ByTimestamp(e: Exchange): Key { (e.timestamp, 0) }
  function UserOf(t: Turn): string { t.user }

  function Turns(es: seq<Exchange>): (ts: seq<Turn>)
    ensures |ts| == |es|
    ensures forall i :: 0 <= i < |ts| ==> ts[i] == Turn(es[i].user, es[i].yuna)
  {
    seq(|es|, i requires 0 <= i < |es| => Turn(es[i].user, es[i].yuna))
  }

  // ---------------------------------------------------------------------
  // get_recent_conversations
  // ---------------------------------------------------------------------

  /** ORDER BY timestamp DESC LIMIT n */
  function Newest(es: seq<Exchange>, limit: nat): seq<Exchange>
  {
    TopK(es, ByTimestamp, limit)
  }

  function GetRecentConversations(es: seq<Exchange>, limit: nat := CONTEXT_FETCH_LIMIT): (r: seq<Turn>)
    ensures |r| == Min(limit, |es|)
  {
    Turns(Newest(es, limit))
  }

  /** The history query returns the newest min(limit, n) exchanges of the
      table, newest first; none left out is newer than one returned. */
  lemma RecentIsNewest(es: seq<Exchange>, limit: nat)
    ensures var top := Newest(es, limit);
      && GetRecentConversations(es, limit) == Turns(top)
      && (forall i, j :: 0 <= i < j < |top| ==> top[i].timestamp >= top[j].timestamp)
      && (forall i :: 0 <= i < |top| ==> top[i] in es)
      && (forall x, i :: x in es && x !in top && 0 <= i < |top| ==> x.timestamp <= top[i].timestamp)
  {
    var top := Newest(es, limit);
    forall i, j | 0 <= i < j < |top| ensures top[i].timestamp >= top[j].timestamp {
      assert RanksAtLeast(ByTimestamp(top[i]), ByTimestamp(top[j]));
    }
    forall i | 0 <= i < |top| ensures top[i] in es {
      assert top[i] in multiset(top);
    }
    forall x, i | x in es && x !in top && 0 <= i < |top| ensures x.timestamp <= top[i].timestamp {
      assert RanksAtLeast(ByTimestamp(top[i]), ByTimestamp(x));
    }
  }

  // ---------------------------------------------------------------------
  // De-duplication by user message (generate_response and get_history)
  // ---------------------------------------------------------------------

  /** The seen-set loop: keeps an entry only when its user message has not
      been seen earlier in the list. */
  method UniqueByUser(memory: seq<Turn>) returns (unique: seq<Turn>)
    ensures unique == FirstOccurrences(memory, UserOf)
  {
    var seen: set<string> := {};
    unique := [];
    for i := 0 to |memory|
      invariant unique == FirstOccurrences(memory[..i], UserOf)
      invariant seen == KeysOf(unique, UserOf)
    {
      var entry := memory[i];
      assert memory[..i + 1][..i] == memory[..i];
      if entry.user !in seen {
        KeysOfAppend(unique, entry, UserOf);
        unique := unique + [entry];
        seen := seen + {entry.user};
      }
    }
    assert memory[..|memory|] == memory;
  }

  // ---------------------------------------------------------------------
  // generate_response: the prompt
  // ---------------------------------------------------------------------

  /** Python's s[-n:]: the last n entries, or all of them when there are
      fewer; since -0 is 0, s[-0:] is the whole list. */
  function Last<T(==)>(s: seq<T>, n: nat): (r: seq<T>)
    ensures |r| == if n == 0 then |s| else Min(n, |s|)
    ensures IsSuffix(r, s)
  {
    if n == 0 || |s| <= n then s else s[|s| - n..]
  }

  /** `suffix` is what remains of `s` after dropping some leading entries. */
  predicate IsSuffix<T(==)>(suffix: seq<T>, s: seq<T>)
  {
    |suffix| <= |s| && s[|s| - |suffix|..] == suffix
  }

  /** The exchanges the prompt recalls: the last CONTEXT_TURNS entries of the
      de-duplicated newest CONTEXT_FETCH_LIMIT exchanges. */
  function Context(es: seq<Exchange>): seq<Turn>
  {
    Last(FirstOccurrences(GetRecentConversations(es, CONTEXT_FETCH_LIMIT), UserOf), CONTEXT_TURNS)
  }

  /** Dropping leading entries keeps keys distinct and adds no entry. */
  lemma LastOfDistinct<T, K>(s: seq<T>, n: nat, key: T -> K)
    requires DistinctKeys(s, key)
    ensures DistinctKeys(Last(s, n), key)
    ensures forall t :: t in Last(s, n) ==> t in s
  {
    var r := Last(s, n);
    var off := |s| - |r|;
    assert r == s[off..];
    forall i, j | 0 <= i < j < |r| ensures key(r[i]) != key(r[j]) {
      assert r[i] == s[off + i] && r[j] == s[off + j];
    }
  }

  /** The context holds at most three exchanges, each a recent one, no two
      with the same user message. */
  lemma ContextIsRecentAndUnique(es: seq<Exchange>)
    ensures var ctx := Context(es);
      && |ctx| <= CONTEXT_TURNS
      && DistinctKeys(ctx, UserOf)
      && forall t :: t in ctx ==> t in GetRecentConversations(es, CONTEXT_FETCH_LIMIT)
  {
    var recent := GetRecentConversations(es, CONTEXT_FETCH_LIMIT);
    var unique := FirstOccurrences(recent, UserOf);
    FirstOccurrencesDistinct(recent, UserOf);
    FirstOccurrencesFromInput(recent, UserOf);
    LastOfDistinct(unique, CONTEXT_TURNS, UserOf);
  }

  /** The context is taken from the end of a newest-first list, so it holds
      the oldest of the unique recent exchanges: when the five newest
      exchanges have distinct user messages, the two newest are left out. */
  lemma ContextSkipsNewest(es: seq<Exchange>)
    requires |es| >= CONTEXT_FETCH_LIMIT
    requires DistinctKeys(GetRecentConversations(es, CONTEXT_FETCH_LIMIT), UserOf)
    ensures var recent := GetRecentConversations(es, CONTEXT_FETCH_LIMIT);
      Context(es) == recent[2..]
  {
    var recent := GetRecentConversations(es, CONTEXT_FETCH_LIMIT);
    FirstOccurrencesOfDistinct(recent, UserOf);
  }

  function ContextLine(t: Turn): string
  {
    t.user + ": " + t.yuna
  }

  function UserLine(userMessage: string): string
  {
    "\n\nUser: " + userMessage + "\nYuna:"
  }

  /** The prompt: the personality text, the recalled exchanges one per line,
      then the user's message and the cue for the reply. */
  function Prompt(userMessage: string, context: seq<Turn>): (p: string)
    ensures StartsWith(p, PERSONALITY + CONTEXT_HEADING)
    ensures EndsWith(p, UserLine(userMessage))
    ensures forall t :: t in context ==> Contains(p, ContextLine(t))
  {
    var lines := seq(|context|, i requires 0 <= i < |context| => ContextLine(context[i]));
    var summary := Join(lines, "\n");
    var head := PERSONALITY + CONTEXT_HEADING;
    var p := head + summary + UserLine(userMessage);
    assert p[..|head|] == head;
    JoinContainsParts(lines, "\n");
    forall t | t in context ensures Contains(p, ContextLine(t)) {
      var i :| 0 <= i < |context| && context[i] == t;
      assert lines[i] == ContextLine(t);
      ContainsInSuffix(head, summary, lines[i]);
      ContainsInPrefix(head + summary, UserLine(userMessage), lines[i]);
    }
    p
  }

  // ---------------------------------------------------------------------
  // The table itself
  // ---------------------------------------------------------------------

  class ChatLog {
    /** Whether CREATE TABLE conversations has run on this database file. */
    var tableExists: bool
    /** The rows of the conversations table, in insertion (rowid) order. */
    var conversations: seq<Exchange>
    /** The AUTOINCREMENT counter: the id the next insert receives. */
    var nextId: int

    ghost predicate Valid()
      reads this
    {
      && nextId >= 1
      && Increasing(conversations, IdOf)
      && (forall i :: 0 <= i < |conversations| ==> 1 <= conversations[i].id < nextId)
      && (!tableExists ==> conversations == [])
    }

    /** A database file in which no table has been created yet. */
    constructor ()
      ensures Valid() && !tableExists && conversations == [] && nextId == 1
    {
      tableExists := false;
      conversations := [];
      nextId := 1;
    }

    /** init_db: creates the table if absent; an existing table and its rows
        are left as they are. */
    method InitDb()
      requires Valid()
      modifies this
      ensures Valid() && tableExists
      ensures conversations == old(conversations) && nextId == old(nextId)
    {
      tableExists := true;
    }

    /** store_conversation: appends one exchange, message and response as given. */
    method StoreConversation(userMessage: string, yunaResponse: string, now: int)
      requires Valid() && tableExists
      modifies this
      ensures Valid() && tableExists
      ensures conversations == old(conversations) + [Exchange(old(nextId), userMessage, yunaResponse, now)]
      ensures nextId == old(nextId) + 1
    {
      conversations := conversations + [Exchange(nextId, userMessage, yunaResponse, now)];
      nextId := nextId + 1;
    }

    /** generate_response: the prompt for a new user message. */
    method GenerateResponse(userMessage: string) returns (prompt: string)
      requires Valid() && tableExists
      ensures prompt == Prompt(userMessage, Context(conversations))
    {
      var memory := GetRecentConversations(conversations, CONTEXT_FETCH_LIMIT);
      var filtered := UniqueByUser(memory);
      prompt := Prompt(userMessage, Last(filtered, CONTEXT_TURNS));
    }

    /** get_history: the newest `limit` exchanges, first occurrence of each
        user message only. */
    method GetHistory(limit: nat := DEFAULT_HISTORY_LIMIT) returns (unique: seq<Turn>)
      requires Valid() && tableExists
      ensures unique == FirstOccurrences(GetRecentConversations(conversations, limit), UserOf)
    {
      var memory := GetRecentConversations(conversations, limit);
      unique := UniqueByUser(memory);
    }
  }
}
