# Yuna memory store — a verified model

Yuna is a personal assistant that remembers what it was told. Its memory lives
in three SQLite tables, and this project models each table as a Dafny class
whose rows are a sequence. The methods change that sequence exactly as the
SQL statements change the table. The queries are pure functions over the rows.

- `long_term_memory.dfy`, module `LongTermMemory` (`memory.py`): the `memory` table.
  - Each record has an AUTOINCREMENT id, a creation time, a category, a content text and a permanence flag.
  - Retrieval picks the category that best matches a fuzzy query. It answers only when that category scores above 60, and then returns its newest records.
  - A retention sweep writes one permanent summary of the old, non-permanent records and then deletes them.
  - Records can be marked permanent by content.
- `conversation_memory.dfy`, module `ConversationMemory` (`src/memory.py`): the `conversations` table of user message / AI response pairs.
  - Storing a response cuts it to 500 characters and adds a truncation marker.
  - Recent retrieval ranks rows by user-message length, then by time.
  - Eviction keeps only the newest N rows.
  - Fuzzy search keeps the rows scoring above 70, in table order, up to a limit.
- `chat_context.dfy`, module `ChatContext` (`src/main.py`): the chat service's `conversations` table, modelled apart from the one of `src/memory.py` (see "Left out").
  - The history query returns the newest rows first.
  - A seen-set loop keeps the first exchange of each user message.
  - The prompt is built from the last three entries of the newest-first unique list, which are the oldest of the unique recent exchanges.
- `tables.dfy`, module `Tables`: the relational building blocks the three stores share.
  - `Filter` is WHERE.
  - `TopK` is ORDER BY ... DESC LIMIT: a stable descending insertion sort, then a prefix.
  - `FirstOccurrences` is the first row of each key.
  - `Join` is string joining.
  - The fuzzy matcher's type is a scorer with values in 0..100.

Modelling choices:
- Time is an integer number of seconds, and the clock is a `now` parameter.
- The fuzzy matcher (rapidfuzz) is an arbitrary function from a query and a text to a score in 0..100.
- `extractOne` is modelled as "the first choice with the highest score".
- Each module's initialisation runs on import. The store methods therefore require that the table exists, and the constructor models a database file without the table.
- The AUTOINCREMENT counter is a field `nextId`. Each class keeps the invariant that ids increase strictly along the table and stay below `nextId`.

## Model

| member | source | states |
|---|---|---|
| LongTermMemory.MemoryStore.EnsureInitialized | memory.py:17-33 | Afterwards the table exists. Rows and id counter are unchanged, so running it again on an initialised store changes nothing. |
| LongTermMemory.MemoryStore.SaveLongTermMemory | memory.py:51-65 | Appends exactly one record with the given category, content and flag, stamped `now`. Its id is the counter's value, above every existing id. Earlier records are unchanged. |
| LongTermMemory.Categories | memory.py:75-76 | DISTINCT category: a category is listed iff some record has it, and none is listed twice. |
| LongTermMemory.ExtractOne | memory.py:84 | None iff there are no choices. Otherwise the result is one of the choices, paired with its own score, and no choice scores higher. |
| LongTermMemory.RetrieveMemory | memory.py:70-100 | At most `limit` rows. A non-empty answer needs a best category scoring above the threshold. Every row has that category. Rows are newest first. |
| LongTermMemory.NewestRows | memory.py:90-95 | The category query returns at most `limit` rows, all of the requested category, in descending timestamp order. |
| LongTermMemory.RetrieveFromEmptyTable | memory.py:79-81 | A table without categories answers every query with nothing. |
| LongTermMemory.RetrieveBelowThreshold | memory.py:89-100 | When the best score is at most the threshold, the answer is empty. |
| LongTermMemory.RetrieveConfident | memory.py:89-97 | When the best score is above the threshold, the answer is the newest min(limit, n) records of that category. n is how many records have it. Each comes from the table, and no record of the category that was left out is newer than one returned. |
| LongTermMemory.RetrieveThresholdMonotone | memory.py:89 | Raising the threshold either leaves the answer unchanged or empties it, so it never grows. |
| LongTermMemory.ExpiredRetainedPartition | memory.py:109-118 | Selected and retained records together account for every record. |
| LongTermMemory.SummaryMentionsEveryDeletion | memory.py:114 | The summary text starts with "Summary of deleted memories:\n" and contains the "category: content" line of every deleted record. |
| LongTermMemory.SweepGuarantees | memory.py:108-118 | After a sweep: permanent records and records not older than the cutoff survive, and no non-permanent record older than the cutoff remains. With nothing to delete, the table is unchanged. Otherwise exactly the selected records go, and one permanent "summarized_deletions" record holding their summary is added last. |
| LongTermMemory.SweepAfterSummary | memory.py:112-118 | Deleting after the summary insert gives the sweep's result, because the summary itself is never deleted. |
| LongTermMemory.RetainedIds | memory.py:118 | Deletion keeps the ids of the remaining rows strictly increasing and within the counter. |
| LongTermMemory.MemoryStore.DeleteOldMemories | memory.py:103-120 | The new table is the sweep of the old one at cutoff `now - days` days, so the guarantees of SweepGuarantees hold. The id counter advances only when a summary was written. |
| LongTermMemory.MarkedPermanent | memory.py:126-128 | Sets the flag on every record whose content equals the argument, not only the first. Length and all other fields are unchanged. |
| LongTermMemory.MarkIdempotent | memory.py:123-130 | Marking twice equals marking once. |
| LongTermMemory.MarkWithoutMatch | memory.py:126-128 | Marking a content that no record holds changes nothing. |
| LongTermMemory.MarkedSurvivesSweep | memory.py:118 | A record marked permanent survives every later sweep. |
| LongTermMemory.MemoryStore.MarkMemoryPermanent | memory.py:123-130 | The new table is MarkedPermanent of the old one. The id counter is unchanged. |
| ConversationMemory.ConversationStore.InitMemoryDb | src/memory.py:13-27 | Afterwards the table exists, with rows and counter unchanged, so it is idempotent. |
| ConversationMemory.Truncated | src/memory.py:36-37 | A response of at most 500 characters is kept as is. A longer one becomes its first 500 characters followed by "... (truncated)", exactly 515 characters. Never more than 515. |
| ConversationMemory.TruncatedIdempotent | src/memory.py:36-37 | Truncating a stored response again changes nothing. |
| ConversationMemory.TruncatedKeepsPrefix | src/memory.py:36-37 | The stored response starts with the first min(n, 500) characters of the original. |
| ConversationMemory.ConversationStore.StoreConversation | src/memory.py:30-43 | Appends exactly one row with the user message, the truncated response, `now` and a fresh id. Existing rows are unchanged. |
| ConversationMemory.GetRecentConversations | src/memory.py:46-55 | Returns min(limit, n) rows: longer user messages first, and newer first among equal lengths. |
| ConversationMemory.RecentIsTop | src/memory.py:50-53 | The rows returned come from the table, and no row left out ranks above a returned one. |
| ConversationMemory.KeptAreLatest | src/memory.py:64-69 | Deleting every row whose id is not among the `keep` newest ids leaves exactly the `keep` newest rows, as a multiset. |
| ConversationMemory.KeptRanksAtLeastDeleted | src/memory.py:64-69 | No deleted row is newer than a kept row. |
| ConversationMemory.KeptAllWhenRoomForAll | src/memory.py:64-69 | When `keep` is at least the row count, nothing is deleted. |
| ConversationMemory.KeepLatest | src/memory.py:58-73 | Exactly min(keep, n) rows remain, all from the table and in table order. No deleted row is newer than a kept one. When keep ≥ n the table is unchanged. |
| ConversationMemory.ConversationStore.DeleteOldConversations | src/memory.py:58-73 | The new table is KeepLatest of the old one. The counter is unchanged. |
| ConversationMemory.SearchConversation | src/memory.py:76-90 | At most `limit` rows, each with a user-message score above 70. When fewer than `limit` come back, their number is the number of matching rows. |
| ConversationMemory.SearchReturnsFirstMatches | src/memory.py:84-88 | The answer is exactly the first min(limit, m) matching rows of the table, in table order, with their own columns: row k is the table row at the k-th matching position. m is the number of matches. |
| Tables.MatchPositionsSpec | src/memory.py:84-87 | The matching positions are listed in increasing order. Each is a match, and no matching position is missing. |
| Tables.FilterAtMatchPositions | src/memory.py:84-87 | A WHERE over a list keeps exactly the rows at the matching positions, in table order. |
| ConversationMemory.SearchKeepsTableOrder | src/memory.py:84-88 | Appending rows to the table never displaces an earlier answer: the old answer is a prefix of the new one. |
| ConversationMemory.SearchLimitPrefix | src/memory.py:88 | The answer for a smaller limit is a prefix of the answer for a larger one. |
| ChatContext.ChatLog.InitDb | src/main.py:34-48 | Afterwards the table exists, with rows and counter unchanged. |
| ChatContext.ChatLog.StoreConversation | src/main.py:52-59 | Appends one row holding the user message and the response unchanged. |
| ChatContext.GetRecentConversations | src/main.py:61-69 | Returns min(limit, n) entries. |
| ChatContext.RecentIsNewest | src/main.py:64-67 | The entries are the newest min(limit, n) exchanges, newest first. Each comes from the table, and none left out is newer than one returned. |
| ChatContext.UniqueByUser | src/main.py:82-88 | The seen-set loop returns exactly FirstOccurrences of its input by user message. |
| Tables.FirstOccurrencesAreFirsts | src/main.py:85-88 | The de-duplicated list is the subsequence of entries whose user message does not occur earlier, in input order. |
| Tables.FirstOccurrencesDistinct | src/main.py:85-88 | No two entries of the de-duplicated list share a user message. |
| Tables.FirstOccurrencesKeys | src/main.py:111-114 | Every user message of the input occurs in the de-duplicated list. |
| Tables.FirstOccurrencesFromInput | src/main.py:85-88 | De-duplication adds no entry. |
| ChatContext.Last | src/main.py:91 | Python's `[-n:]`: the last min(n, length) entries, the tail of the list. `[-0:]` keeps the whole list. |
| ChatContext.ContextIsRecentAndUnique | src/main.py:81-91 | The prompt's context has at most three entries. No two share a user message, and each is among the newest five exchanges. |
| ChatContext.ContextSkipsNewest | src/main.py:81-91 | The tail is taken from a newest-first list. So when the five newest exchanges have distinct user messages, the context is the third to fifth newest, and the two newest are left out. |
| Tables.FirstOccurrencesOfDistinct | src/main.py:85-88 | De-duplication keeps a list whose user messages are already distinct unchanged. |
| ChatContext.Prompt | src/main.py:78-92 | The prompt begins with the personality text and the context heading, and ends with "\n\nUser: " + message + "\nYuna:". It contains the "user: yuna" line of every context entry. |
| ChatContext.ChatLog.GenerateResponse | src/main.py:76-93 | The prompt is Prompt of the message and the context of the current table. |
| ChatContext.ChatLog.GetHistory | src/main.py:105-116 | The first exchange of each user message among the newest `limit` exchanges, newest first. |
| Tables.TopK | src/memory.py:50-53 | ORDER BY key DESC LIMIT k: min(k, n) rows, sorted descending, a sub-multiset of the table. No row left out ranks above a row returned. |
| Tables.FilterIncreasing | src/memory.py:64-69 | Deleting rows keeps the rest in AUTOINCREMENT order. |

## Left out

- Short-term memory (memory.py:39-48) is a whole JSON file written and read through the file system. It has no logic beyond "a missing file reads as an empty dictionary".
- The fuzzy matcher's algorithm (rapidfuzz `process.extractOne`, `fuzz.partial_ratio`) is a foreign library. The scorer is a parameter with values in 0..100.
- ExtractOne: at memory.py:84 the code unpacks `extractOne`'s result into two names. rapidfuzz documents a three-element result for a list of choices. The model gives the intended (category, score) pair and does not model the unpacking error.
- SQLite mechanics are not modelled: connections, the WAL pragma, commit and close, `row_factory` and the indexes (memory.py:30-31). Each function is one atomic change of the table.
- Timestamps are ISO-8601 strings in the source and integers here. String order and time order are taken to agree.
- LongTermMemory.MemoryStore.DeleteOldMemories: the source stamps the summary record with a second, later clock reading, taken in save_long_term_memory (memory.py:61, reached through memory.py:115). The model stamps it with the sweep's own `now`.
- SQL leaves the order of rows with equal sort keys unspecified, as well as the order of SELECT DISTINCT and of a SELECT without ORDER BY.
  - The model sorts stably, so ties keep table order. DISTINCT lists categories in order of first appearance. The SELECTs without ORDER BY return rows in table order: the sweep's (memory.py:109) and the search's (src/memory.py:80).
  - `CURRENT_TIMESTAMP` has one-second resolution, so equal timestamps are common.
  - Several contracts fix one of these orders:
    - ChatContext.ChatLog.GenerateResponse and ChatContext.ChatLog.GetHistory: which of several equally timed exchanges reach the answer, and in what order, follows the stable sort.
    - LongTermMemory.RetrieveMemory, LongTermMemory.RetrieveConfident and LongTermMemory.RetrieveThresholdMonotone: they name the winning category. Among equally scored categories it is the first in first-appearance order, whereas with the category index SQLite may list categories in sorted order.
    - LongTermMemory.MemoryStore.DeleteOldMemories and LongTermMemory.SweepGuarantees: the summary's lines are in table order, whereas the SELECT may follow the timestamp index.
    - ConversationMemory.ConversationStore.DeleteOldConversations, ConversationMemory.KeepLatest and ConversationMemory.KeptAreLatest: among rows sharing the timestamp at the keep boundary, the earlier rows in table order survive. SQL may keep any of them.
    - ConversationMemory.RecentIsTop, ChatContext.RecentIsNewest and ChatContext.ContextSkipsNewest: they equate the answer with the stable sort's output, so ties come back in table order.
    - ConversationMemory.SearchConversation, ConversationMemory.SearchReturnsFirstMatches, ConversationMemory.SearchKeepsTableOrder and ConversationMemory.SearchLimitPrefix: they take the search's SELECT (src/memory.py:80) to scan the table in insertion order.
  - The remaining contracts hold whatever order SQLite picks for ties and unordered SELECTs.
- Negative `limit`, `days` and `keep_latest` have SQLite- and Python-specific meanings, such as LIMIT -1 meaning no limit. They are excluded by the `nat` parameter types.
- The sweep selects the records to summarise and then deletes by running the condition again (memory.py:109, memory.py:118), rather than deleting the selected set. The model re-applies the condition to the table that includes the new summary, and SweepAfterSummary shows the two agree.
- The web layer is not part of this model:
  - in src/main.py, the `/chat` and `/history` routes as HTTP handlers, FastAPI, CORS, the lifespan hook and uvicorn (`get_history`'s de-duplication is modelled as ChatLog.GetHistory);
  - yuna_gui.py, yuna.py, src/flask_ui/app.py and yuna_automation_mac_mini.py.
- Status and debug printing is not modelled.
- ConversationMemory.GetRecentConversations: it ranks by the full length of the user message. SQLite's LENGTH counts characters only up to the first NUL character, so a message containing NUL ranks lower in the source.
- LongTermMemory.Cutoff: it accepts every number of days. Python's `timedelta` and `datetime` subtraction raise OverflowError once the cutoff would fall before year 1, at about 739,000 days.
- Limits at or above 2^63 (`limit` at memory.py:94, src/memory.py:53 and src/main.py:65, `keep_latest` at src/memory.py:71) make the sqlite3 binding raise OverflowError. The model's unbounded `nat` accepts them and answers as for any large limit.
- src/memory.py and src/main.py both create a table named `conversations` in the same file `yuna_memory.db`, with incompatible columns. Whichever module runs first creates the table, and the other's inserts would then fail. The model treats the two as independent tables, ConversationMemory.ConversationStore and ChatContext.ChatLog.
- ChatContext.GetRecentConversations: the function's own contract gives only the size. Order and origin are stated by RecentIsNewest.
