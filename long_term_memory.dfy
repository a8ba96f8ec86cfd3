/** The long-term memory table of memory.py: records with an AUTOINCREMENT id,
    a creation time, a category, a content text and a permanence flag; fuzzy
    retrieval by category, a retention sweep that summarises the records it
    deletes, and manual marking of records as permanent. */
module LongTermMemory {
  import opened Tables

  const SECONDS_PER_DAY := 86400
  /** retrieve_memory answers only when the best category scores above this. */
  const CONFIDENCE_THRESHOLD: real := 60.0
  const DEFAULT_RECALL_LIMIT: nat := 5
  const DEFAULT_RETENTION_DAYS: nat := 30
  const SUMMARY_CATEGORY := "summarized_deletions"
  const SUMMARY_HEADER := "Summary of deleted memories:\n"

  datatype MemoryRecord = MemoryRecord(
    id: int,
    timestamp: int,
    category: string,
    content: string,
    permanent: bool)

  /** The three columns retrieve_memory returns for each row. */
  datatype Recalled = Recalled(timestamp: int, category: string, content: string)

  function IdOf(r: MemoryRecord): int { r.id }
  function CategoryOf(r: MemoryRecord): string { r.category }
  function ByTimestamp(r: MemoryRecord): Key { (r.timestamp, 0) }

  // ---------------------------------------------------------------------
  // retrieve_memory
  // ---------------------------------------------------------------------

  /** SELECT DISTINCT category: every category once, in table order. */
  function Categories(records: seq<MemoryRecord>): (cs: seq<string>)
    ensures forall c :: c in cs <==> exists r :: r in records && r.category == c
    ensures forall i, j :: 0 <= i < j < |cs| ==> cs[i] != cs[j]
  {
    var firsts := FirstOccurrences(records, CategoryOf);
    FirstOccurrencesKeys(records, CategoryOf);
    FirstOccurrencesDistinct(records, CategoryOf);
    var cs := seq(|firsts|, i requires 0 <= i < |firsts| => firsts[i].category);
    assert forall c :: c in cs <==> c in KeysOf(firsts, CategoryOf) by {
      forall c | c in KeysOf(firsts, CategoryOf) ensures c in cs {
        var i :| 0 <= i < |firsts| && CategoryOf(firsts[i]) == c;
        assert cs[i] == c;
      }
    }
    assert forall c :: c in KeysOf(records, CategoryOf) <==> exists r :: r in records && r.category == c by {
      forall c | (exists r :: r in records && r.category == c) ensures c in KeysOf(records, CategoryOf) {
        var r :| r in records && r.category == c;
        var i :| 0 <= i < |records| && records[i] == r;
        assert CategoryOf(records[i]) == c;
      }
    }
    cs
  }

  /** The fuzzy matcher's best choice: the first choice with the highest
      score, or None when there is nothing to choose from. */
  function ExtractOne(query: string, choices: seq<string>, scorer: Scorer): (m: Option<(string, Score)>)
    ensures m.None? <==> choices == []
    ensures m.Some? ==> m.value.0 in choices && m.value.1 == scorer(query, m.value.0)
    ensures m.Some? ==> forall c :: c in choices ==> scorer(query, c) <= m.value.1
  {
    if choices == [] then None
    else
      var here := scorer(query, choices[0]);
      match ExtractOne(query, choices[1..], scorer)
      case None => Some((choices[0], here))
      case Some(best) => if here >= best.1 then Some((choices[0], here)) else Some(best)
  }

  /** The category a query is matched against, with its score. */
  function BestCategory(records: seq<MemoryRecord>, query: string, scorer: Scorer): Option<(string, Score)>
  {
    ExtractOne(query, Categories(records), scorer)
  }

  /** The condition WHERE category = c */
  function HasCategory(category: string): MemoryRecord -> bool
  {
    (r: MemoryRecord) => r.category == category
  }

  /** SELECT ... WHERE category = c ORDER BY timestamp DESC LIMIT n */
  function Newest(records: seq<MemoryRecord>, category: string, limit: nat): seq<MemoryRecord>
  {
    TopK(Filter(records, HasCategory(category)), ByTimestamp, limit)
  }

  /** Every row of Newest has the requested category, and they come newest first. */
  lemma NewestRows(records: seq<MemoryRecord>, category: string, limit: nat)
    ensures var rows := Newest(records, category, limit);
      && |rows| <= limit
      && (forall i :: 0 <= i < |rows| ==> rows[i].category == category)
      && (forall i, j :: 0 <= i < j < |rows| ==> rows[i].timestamp >= rows[j].timestamp)
  {
    var rows := Newest(records, category, limit);
    forall i | 0 <= i < |rows| ensures rows[i].category == category {
      assert rows[i] in multiset(rows);
    }
  }

  function Recalls(rows: seq<MemoryRecord>): (v: seq<Recalled>)
    ensures |v| == |rows|
    ensures forall i :: 0 <= i < |v| ==> v[i] == Recalled(rows[i].timestamp, rows[i].category, rows[i].content)
  {
    seq(|rows|, i requires 0 <= i < |rows| => Recalled(rows[i].timestamp, rows[i].category, rows[i].content))
  }

  /** Answers a query with the newest records of the best-matching category,
      or with nothing when no category matches confidently enough. */
  function RetrieveMemory(
    records: seq<MemoryRecord>, query: string, scorer: Scorer,
    limit: nat := DEFAULT_RECALL_LIMIT, threshold: real := CONFIDENCE_THRESHOLD): (r: seq<Recalled>)
    ensures |r| <= limit
    ensures r != [] ==> BestCategory(records, query, scorer).Some?
    ensures r != [] ==> BestCategory(records, query, scorer).value.1 > threshold
    ensures forall i :: 0 <= i < |r| ==> r[i].category == BestCategory(records, query, scorer).value.0
    ensures forall i, j :: 0 <= i < j < |r| ==> r[i].timestamp >= r[j].timestamp
  {
    match BestCategory(records, query, scorer)
    case None => []
    case Some(best) =>
      if best.1 > threshold then
        NewestRows(records, best.0, limit);
        Recalls(Newest(records, best.0, limit))
      else []
  }

  /** An empty table answers every query with nothing. */
  lemma RetrieveFromEmptyTable(query: string, scorer: Scorer, limit: nat, threshold: real)
    ensures RetrieveMemory([], query, scorer, limit, threshold) == []
  {
  }

  /** A best score at or below the threshold answers with nothing. */
  lemma RetrieveBelowThreshold(
    records: seq<MemoryRecord>, query: string, scorer: Scorer, limit: nat, threshold: real)
    requires BestCategory(records, query, scorer).Some?
    requires BestCategory(records, query, scorer).value.1 <= threshold
    ensures RetrieveMemory(records, query, scorer, limit, threshold) == []
  {
  }

  /** A confident match answers with the newest min(limit, n) records of the
      matched category, n being how many the table holds: each comes from the
      table, and no record of that category left out is newer than one
      returned. */
  lemma RetrieveConfident(
    records: seq<MemoryRecord>, query: string, scorer: Scorer, limit: nat, threshold: real)
    requires BestCategory(records, query, scorer).Some?
    requires BestCategory(records, query, scorer).value.1 > threshold
    ensures var category := BestCategory(records, query, scorer).value.0;
      var rows := Newest(records, category, limit);
      && RetrieveMemory(records, query, scorer, limit, threshold) == Recalls(rows)
      && |rows| == Min(limit, |Filter(records, HasCategory(category))|)
      && (forall i :: 0 <= i < |rows| ==> rows[i] in records && rows[i].category == category)
      && (forall x, i :: x in records && x.category == category && x !in rows && 0 <= i < |rows|
            ==> x.timestamp <= rows[i].timestamp)
  {
    var category := BestCategory(records, query, scorer).value.0;
    var inCategory := Filter(records, HasCategory(category));
    var rows := Newest(records, category, limit);
    forall i | 0 <= i < |rows| ensures rows[i] in records && rows[i].category == category {
      assert rows[i] in multiset(rows);
      assert rows[i] in inCategory;
    }
    forall x, i | x in records && x.category == category && x !in rows && 0 <= i < |rows|
      ensures x.timestamp <= rows[i].timestamp
    {
      assert HasCategory(category)(x);
      assert x in inCategory;
      assert RanksAtLeast(ByTimestamp(rows[i]), ByTimestamp(x));
    }
  }

  /** Raising the confidence threshold never enlarges the answer: it either
      leaves it as it was or empties it. */
  lemma RetrieveThresholdMonotone(
    records: seq<MemoryRecord>, query: string, scorer: Scorer, limit: nat, low: real, high: real)
    requires low <= high
    ensures var strict := RetrieveMemory(records, query, scorer, limit, high);
      strict == [] || strict == RetrieveMemory(records, query, scorer, limit, low)
    ensures |RetrieveMemory(records, query, scorer, limit, high)|
         <= |RetrieveMemory(records, query, scorer, limit, low)|
  {
  }

  // ---------------------------------------------------------------------
  // delete_old_memories
  // ---------------------------------------------------------------------

  /** The moment `days` days before `now`; older records may be swept. */
  function Cutoff(now: int, days: nat): int
  {
    now - days * SECONDS_PER_DAY
  }

  /** Older than the cutoff and not protected by the permanence flag. */
  predicate IsExpired(r: MemoryRecord, cutoff: int)
  {
    r.timestamp < cutoff && !r.permanent
  }

  function ExpiresBy(cutoff: int): MemoryRecord -> bool
  {
    (r: MemoryRecord) => IsExpired(r, cutoff)
  }

  function SurvivesBy(cutoff: int): MemoryRecord -> bool
  {
    (r: MemoryRecord) => !IsExpired(r, cutoff)
  }

  /** SELECT category, content ... WHERE timestamp < cutoff AND permanent = 0 */
  function Expired(records: seq<MemoryRecord>, cutoff: int): seq<MemoryRecord>
  {
    Filter(records, ExpiresBy(cutoff))
  }

  /** What DELETE ... WHERE timestamp < cutoff AND permanent = 0 leaves. */
  function Retained(records: seq<MemoryRecord>, cutoff: int): seq<MemoryRecord>
  {
    Filter(records, SurvivesBy(cutoff))
  }

  lemma {:induction false} ExpiredRetainedPartition(records: seq<MemoryRecord>, cutoff: int)
    ensures |Expired(records, cutoff)| + |Retained(records, cutoff)| == |records|
  {
    if records != [] {
      ExpiredRetainedPartition(records[1..], cutoff);
    }
  }

  function SummaryLine(r: MemoryRecord): string
  {
    r.category + ": " + r.content
  }

  /** The content of the summary record: a fixed header, then one
      "category: content" line per deleted record, in selection order. */
  function SummaryText(expired: seq<MemoryRecord>): string
  {
    SUMMARY_HEADER + Join(SummaryLines(expired), "\n")
  }

  function SummaryLines(expired: seq<MemoryRecord>): (lines: seq<string>)
    ensures |lines| == |expired|
    ensures forall i :: 0 <= i < |expired| ==> lines[i] == SummaryLine(expired[i])
  {
    seq(|expired|, i requires 0 <= i < |expired| => SummaryLine(expired[i]))
  }

  /** The summary starts with its header and names every deleted record. */
  lemma SummaryMentionsEveryDeletion(expired: seq<MemoryRecord>)
    ensures StartsWith(SummaryText(expired), SUMMARY_HEADER)
    ensures forall r :: r in expired ==> Contains(SummaryText(expired), SummaryLine(r))
  {
    var lines := SummaryLines(expired);
    var text := SummaryText(expired);
    assert text[..|SUMMARY_HEADER|] == SUMMARY_HEADER;
    JoinContainsParts(lines, "\n");
    forall r | r in expired ensures Contains(text, SummaryLine(r)) {
      var i :| 0 <= i < |expired| && expired[i] == r;
      ContainsInSuffix(SUMMARY_HEADER, Join(lines, "\n"), lines[i]);
    }
  }

  function SummaryRecord(id: int, now: int, expired: seq<MemoryRecord>): MemoryRecord
  {
    MemoryRecord(id, now, SUMMARY_CATEGORY, SummaryText(expired), true)
  }

  /** The table after a retention sweep with the given cutoff, the summary
      (when there is one) receiving `summaryId` and the time `now`. */
  function Swept(records: seq<MemoryRecord>, cutoff: int, now: int, summaryId: int): seq<MemoryRecord>
  {
    var expired := Expired(records, cutoff);
    Retained(records, cutoff) + if expired == [] then [] else [SummaryRecord(summaryId, now, expired)]
  }

  /** What a sweep guarantees: permanent records and records not older than
      the cutoff survive; no expired record remains; without expired records
      the table is unchanged; otherwise exactly the expired records go and
      one permanent summary of them is added at the end. */
  lemma SweepGuarantees(records: seq<MemoryRecord>, cutoff: int, now: int, summaryId: int)
    ensures var r := Swept(records, cutoff, now, summaryId);
      && (forall x :: x in records && x.permanent ==> x in r)
      && (forall x :: x in records && x.timestamp >= cutoff ==> x in r)
      && (forall x :: x in r ==> !IsExpired(x, cutoff))
      && (Expired(records, cutoff) == [] ==> r == records)
      && (Expired(records, cutoff) != [] ==>
            && |r| == |records| - |Expired(records, cutoff)| + 1
            && r[|r| - 1] == SummaryRecord(summaryId, now, Expired(records, cutoff))
            && forall x :: x in r[..|r| - 1] ==> x in records)
  {
    var expired := Expired(records, cutoff);
    var kept := Retained(records, cutoff);
    var r := Swept(records, cutoff, now, summaryId);
    ExpiredRetainedPartition(records, cutoff);
    if expired == [] {
      FilterAll(records, SurvivesBy(cutoff));
      assert r == kept;
    } else {
      assert r[..|r| - 1] == kept;
    }
  }

  /** Inserting the summary first and then running the DELETE yields the
      swept table: the summary is permanent, so the DELETE spares it. */
  lemma SweepAfterSummary(before: seq<MemoryRecord>, after: seq<MemoryRecord>, cutoff: int, now: int, summaryId: int)
    requires var expired := Expired(before, cutoff);
      after == before + (if expired == [] then [] else [SummaryRecord(summaryId, now, expired)])
    ensures Retained(after, cutoff) == Swept(before, cutoff, now, summaryId)
  {
    var expired := Expired(before, cutoff);
    if expired != [] {
      FilterAppend(before, [SummaryRecord(summaryId, now, expired)], SurvivesBy(cutoff));
    } else {
      assert after == before;
      FilterAll(before, SurvivesBy(cutoff));
    }
  }

  /** Ids stay in range and increasing when rows are deleted. */
  lemma RetainedIds(records: seq<MemoryRecord>, cutoff: int, nextId: int)
    requires Increasing(records, IdOf)
    requires forall i :: 0 <= i < |records| ==> 1 <= records[i].id < nextId
    ensures var kept := Retained(records, cutoff);
      && Increasing(kept, IdOf)
      && forall i :: 0 <= i < |kept| ==> 1 <= kept[i].id < nextId
  {
    FilterIncreasing(records, SurvivesBy(cutoff), IdOf);
    var kept := Retained(records, cutoff);
    forall i | 0 <= i < |kept| ensures 1 <= kept[i].id < nextId {
      var j :| 0 <= j < |records| && records[j] == kept[i];
    }
  }

  // ---------------------------------------------------------------------
  // mark_memory_permanent
  // ---------------------------------------------------------------------

  /** UPDATE memory SET permanent = 1 WHERE content = c */
  function MarkedPermanent(records: seq<MemoryRecord>, content: string): (r: seq<MemoryRecord>)
    ensures |r| == |records|
    ensures forall i :: 0 <= i < |r| ==>
      r[i].permanent == (records[i].permanent || records[i].content == content)
    ensures forall i :: 0 <= i < |r| ==>
      r[i] == records[i].(permanent := r[i].permanent)
  {
    seq(|records|, i requires 0 <= i < |records| =>
      if records[i].content == content then records[i].(permanent := true) else records[i])
  }

  /** Marking twice is marking once. */
  lemma MarkIdempotent(records: seq<MemoryRecord>, content: string)
    ensures MarkedPermanent(MarkedPermanent(records, content), content) == MarkedPermanent(records, content)
  {
  }

  /** Marking a content no record holds changes nothing. */
  lemma MarkWithoutMatch(records: seq<MemoryRecord>, content: string)
    requires forall x :: x in records ==> x.content != content
    ensures MarkedPermanent(records, content) == records
  {
    var r := MarkedPermanent(records, content);
    forall i | 0 <= i < |r| ensures r[i] == records[i] {
      assert records[i] in records;
    }
  }

  /** A record marked permanent survives every later retention sweep. */
  lemma MarkedSurvivesSweep(
    records: seq<MemoryRecord>, content: string, cutoff: int, now: int, summaryId: int)
    ensures var marked := MarkedPermanent(records, content);
      forall x :: x in marked && x.content == content ==> x in Swept(marked, cutoff, now, summaryId)
  {
  }

  // ---------------------------------------------------------------------
  // The table itself
  // ---------------------------------------------------------------------

  class MemoryStore {
    /** Whether CREATE TABLE memory has run on this database file. */
    var tableExists: bool
    /** The rows of the memory table, in insertion (rowid) order. */
    var records: seq<MemoryRecord>
    /** The AUTOINCREMENT counter: the id the next insert receives. */
    var nextId: int

    ghost predicate Valid()
      reads this
    {
      && nextId >= 1
      && Increasing(records, IdOf)
      && (forall i :: 0 <= i < |records| ==> 1 <= records[i].id < nextId)
      && (!tableExists ==> records == [])
    }

    /** A database file in which no table has been created yet. */
    constructor ()
      ensures Valid() && !tableExists && records == [] && nextId == 1
    {
      tableExists := false;
      records := [];
      nextId := 1;
    }

    /** ensure_db_initialized: creates the table if absent; an existing
        table and its rows are left as they are. */
    method EnsureInitialized()
      requires Valid()
      modifies this
      ensures Valid() && tableExists
      ensures records == old(records) && nextId == old(nextId)
    {
      tableExists := true;
    }

    /** save_long_term_memory: appends one record stamped `now` under a fresh id. */
    method SaveLongTermMemory(content: string, category: string, now: int, permanent: bool := false)
      requires Valid() && tableExists
      modifies this
      ensures Valid() && tableExists
      ensures records == old(records) + [MemoryRecord(old(nextId), now, category, content, permanent)]
      ensures forall x :: x in old(records) ==> x.id < records[|records| - 1].id
      ensures nextId == old(nextId) + 1
    {
      records := records + [MemoryRecord(nextId, now, category, content, permanent)];
      nextId := nextId + 1;
    }

    /** delete_old_memories: writes one permanent summary of the expired
        records when there are any, then deletes the expired records. */
    method DeleteOldMemories(now: int, days: nat := DEFAULT_RETENTION_DAYS)
      requires Valid() && tableExists
      modifies this
      ensures Valid() && tableExists
      ensures records == Swept(old(records), Cutoff(now, days), now, old(nextId))
      ensures nextId == old(nextId) + if Expired(old(records), Cutoff(now, days)) == [] then 0 else 1
    {
      var cutoff := Cutoff(now, days);
      var oldMemories := Expired(records, cutoff);
      ghost var before, firstId := records, nextId;
      if oldMemories != [] {
        var summary := SummaryText(oldMemories);
        SaveLongTermMemory(summary, SUMMARY_CATEGORY, now, permanent := true);
      }
      SweepAfterSummary(before, records, cutoff, now, firstId);
      RetainedIds(records, cutoff, nextId);
      records := Retained(records, cutoff);
      assert records == Swept(before, cutoff, now, firstId);
    }

    /** mark_memory_permanent: sets the flag on every record with this content. */
    method MarkMemoryPermanent(content: string)
      requires Valid() && tableExists
      modifies this
      ensures Valid() && tableExists
      ensures records == MarkedPermanent(old(records), content) && nextId == old(nextId)
    {
      records := MarkedPermanent(records, content);
    }
  }
}
