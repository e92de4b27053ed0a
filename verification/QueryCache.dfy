/**
 * The query result cache: entries under their SQL text, a reverse index from tables to the queries
 * that read them, least-recently-used eviction, a time to live and a byte budget.
 *
 * `log` is the history of what callers told the cache.  It is compared with the cache contents to
 * say what a hit is worth.
 */
module QueryCaches {
  import opened Options

  type Query = string
  type Table = string
  type Millis = int

  datatype QueryResult = QueryResult(success: bool, columns: seq<string>, rows: seq<seq<string>>, message: string)

  datatype CacheEntry = CacheEntry(result: QueryResult, createdAt: Millis, lastAccessedAt: Millis,
                                   accessCount: nat, tables: set<Table>, memory: nat)

  type Entries = map<Query, CacheEntry>
  type Index = map<Table, set<Query>>

  // ---------- Agreement of the reverse index with the entries ----------

  predicate Lists(index: Index, t: Table, q: Query) {
    t in index && q in index[t]
  }

  predicate Affects(entries: Entries, q: Query, t: Table) {
    q in entries && t in entries[q].tables
  }

  /** The index lists exactly the cached queries under exactly their tables. */
  ghost predicate Coherent(entries: Entries, index: Index) {
    forall q, t :: Lists(index, t, q) <==> Affects(entries, q, t)
  }

  /** The half of coherence that invalidation needs: no cached query is missing from the index. */
  ghost predicate Covered(entries: Entries, index: Index) {
    forall q, t :: Affects(entries, q, t) ==> Lists(index, t, q)
  }

  /** The index without `q` under `tables`; a table left with no query is dropped. */
  function Unlisted(index: Index, q: Query, tables: set<Table>): Index {
    map t | t in index && !(t in tables && index[t] - {q} == {}) :: if t in tables then index[t] - {q} else index[t]
  }

  function Listed(index: Index, q: Query, tables: set<Table>): Index {
    map t | t in index.Keys + tables ::
      (if t in index then index[t] else {}) + (if t in tables then {q} else {})
  }

  lemma ListedNowhere(index: Index, q: Query)
    ensures Listed(index, q, {}) == index
  {
    var ix := Listed(index, q, {});
    assert ix.Keys == index.Keys;
    forall t | t in index ensures ix[t] == index[t] {
    }
  }

  lemma OtherTableUnlisted(q: Query, a: Table, b: Table)
    requires a != b
    ensures b !in Listed(map[], q, {a})
  {
  }

  lemma ListedOnce(index: Index, q: Query, tables: set<Table>, t: Table)
    ensures var ix := Listed(index, q, tables);
            Listed(index, q, tables + {t}) == ix[t := (if t in ix then ix[t] else {}) + {q}]
  {
    var ix, more := Listed(index, q, tables), Listed(index, q, tables + {t});
    forall u | u in more && u != t ensures u in ix && more[u] == ix[u] {
    }
    assert more[t] == (if t in ix then ix[t] else {}) + {q};
    assert more.Keys == ix.Keys + {t};
  }

  function Forgotten(index: Index, queries: set<Query>): Index {
    map u | u in index :: index[u] - queries
  }

  lemma ForgetOne(index: Index, queries: set<Query>, q: Query)
    ensures Forgotten(index, queries + {q}) == Forgotten(Forgotten(index, queries), {q})
  {
    var a, b := Forgotten(index, queries + {q}), Forgotten(Forgotten(index, queries), {q});
    assert a.Keys == b.Keys == index.Keys;
    forall u | u in index ensures a[u] == b[u] {
      assert index[u] - (queries + {q}) == (index[u] - queries) - {q};
    }
  }

  lemma ForgetNone(index: Index)
    ensures Forgotten(index, {}) == index
  {
    forall u | u in index ensures Forgotten(index, {})[u] == index[u] {
    }
    assert Forgotten(index, {}).Keys == index.Keys;
  }

  /** Entry `q` is thrown out by expiry, eviction or a database drop. */
  function Without(entries: Entries, q: Query): Entries {
    entries - {q}
  }

  function Dropped(entries: Entries, queries: set<Query>): Entries {
    entries - queries
  }

  function Invalidated(entries: Entries, index: Index, t: Table): (Entries, Index) {
    if t !in index then (entries, index)
    else (Dropped(entries, index[t]), Forgotten(index, index[t]) - {t})
  }

  /** A fresh entry always agrees; replacing an entry under an existing key keeps coherence exactly
      when its tables stay the same, and keeps coverage exactly when the new tables are all listed. */
  lemma NewEntryAgrees(entries: Entries, index: Index, q: Query, e: CacheEntry)
    requires q !in entries
    ensures Coherent(entries, index) ==> Coherent(entries[q := e], Listed(index, q, e.tables))
    ensures Covered(entries, index) ==> Covered(entries[q := e], Listed(index, q, e.tables))
  {
    var es, ix := entries[q := e], Listed(index, q, e.tables);
    forall p, t
      ensures Affects(es, p, t) <==> if p == q then t in e.tables else Affects(entries, p, t)
      ensures Lists(ix, t, p) <==> Lists(index, t, p) || (p == q && t in e.tables)
    {
    }
    if Coherent(entries, index) {
      forall t ensures !Lists(index, t, q) {
        assert !Affects(entries, q, t);
      }
    }
  }

  lemma ReplacedEntryAgrees(entries: Entries, index: Index, q: Query, e: CacheEntry)
    requires q in entries
    ensures Coherent(entries, index) ==> (Coherent(entries[q := e], index) <==> e.tables == entries[q].tables)
    ensures Covered(entries, index) ==> (Covered(entries[q := e], index) <==> forall t :: t in e.tables ==> Lists(index, t, q))
  {
    var es := entries[q := e];
    forall p, t ensures Affects(es, p, t) <==> if p == q then t in e.tables else Affects(entries, p, t) {
    }
    if Coherent(entries, index) && Coherent(es, index) {
      forall t ensures t in e.tables <==> t in entries[q].tables {
        assert Lists(index, t, q) <==> Affects(es, q, t);
        assert Lists(index, t, q) <==> Affects(entries, q, t);
      }
    }
    if Covered(es, index) {
      forall t | t in e.tables ensures Lists(index, t, q) {
        assert Affects(es, q, t);
      }
    }
  }

  lemma InvalidationAgrees(entries: Entries, index: Index, t: Table)
    ensures var (es, ix) := Invalidated(entries, index, t);
            (Coherent(entries, index) ==> Coherent(es, ix)) && (Covered(entries, index) ==> Covered(es, ix))
  {
    var (es, ix) := Invalidated(entries, index, t);
    if t in index {
      forall q, u
        ensures Affects(es, q, u) <==> Affects(entries, q, u) && !Lists(index, t, q)
        ensures Lists(ix, u, q) <==> Lists(index, u, q) && !Lists(index, t, q)
      {
      }
    }
  }

  // ---------- The history, and what a cached entry is worth ----------

  datatype Event =
    | Stored(query: Query, result: QueryResult, tables: set<Table>, at: Millis)
    | TableChanged(table: Table)
    | DatabaseDropped(name: string)
    | Cleared

  type Match = (Query, string) -> bool

  /** After this event an earlier result for `q` that read the tables in `watched` is out of date. */
  predicate Supersedes(ev: Event, q: Query, watched: set<Table>, mentions: Match) {
    match ev
    case Stored(p, _, _, _) => p == q
    case TableChanged(t) => t in watched
    case DatabaseDropped(name) => mentions(q, name)
    case Cleared => true
  }

  /** The entry is what an accepted put of `q` stored, and nothing has superseded it since. */
  ghost predicate Stands(log: seq<Event>, q: Query, e: CacheEntry, watched: set<Table>, mentions: Match) {
    exists k ::
      0 <= k < |log| && log[k] == Stored(q, e.result, e.tables, e.createdAt) &&
      forall j :: k < j < |log| ==> !Supersedes(log[j], q, watched, mentions)
  }

  ghost predicate Fresh(log: seq<Event>, q: Query, e: CacheEntry, mentions: Match) {
    Stands(log, q, e, e.tables, mentions)
  }

  ghost predicate AllFresh(entries: Entries, log: seq<Event>, mentions: Match) {
    forall q :: q in entries ==> Fresh(log, q, entries[q], mentions)
  }

  /** Weaker: each entry holds what the latest accepted put of its query stored. */
  ghost predicate AllLatest(entries: Entries, log: seq<Event>, mentions: Match) {
    forall q :: q in entries ==> Stands(log, q, entries[q], {}, mentions)
  }

  lemma StandsAfter(log: seq<Event>, ev: Event, q: Query, e: CacheEntry, watched: set<Table>, mentions: Match)
    ensures ev == Stored(q, e.result, e.tables, e.createdAt) ==> Stands(log + [ev], q, e, watched, mentions)
    ensures ev != Stored(q, e.result, e.tables, e.createdAt) ==>
      (Stands(log + [ev], q, e, watched, mentions) <==> Stands(log, q, e, watched, mentions) && !Supersedes(ev, q, watched, mentions))
  {
    var log' := log + [ev];
    var put := Stored(q, e.result, e.tables, e.createdAt);
    assert log'[|log|] == ev;
    if ev != put && Stands(log', q, e, watched, mentions) {
      var k :| 0 <= k < |log'| && log'[k] == put && forall j :: k < j < |log'| ==> !Supersedes(log'[j], q, watched, mentions);
      assert k < |log| && log[k] == log'[k];
      assert !Supersedes(log'[|log|], q, watched, mentions);
      forall j | k < j < |log| ensures !Supersedes(log[j], q, watched, mentions) {
        assert log[j] == log'[j];
      }
    }
    if ev != put && Stands(log, q, e, watched, mentions) && !Supersedes(ev, q, watched, mentions) {
      var k :| 0 <= k < |log| && log[k] == put && forall j :: k < j < |log| ==> !Supersedes(log[j], q, watched, mentions);
      assert log'[k] == log[k];
      forall j | k < j < |log'| ensures !Supersedes(log'[j], q, watched, mentions) {
        if j < |log| { assert log'[j] == log[j]; }
      }
    }
  }

  /** Coverage is exactly what makes invalidation work: every cached entry stays fresh through a
      change of any table, if and only if the index covers the entries. */
  lemma ChangesKeepFreshIffCovered(entries: Entries, index: Index, log: seq<Event>, mentions: Match)
    requires AllFresh(entries, log, mentions)
    ensures (forall t :: AllFresh(Invalidated(entries, index, t).0, log + [TableChanged(t)], mentions)) <==>
            Covered(entries, index)
  {
    if Covered(entries, index) {
      forall t ensures AllFresh(Invalidated(entries, index, t).0, log + [TableChanged(t)], mentions) {
        CoveredStaysFresh(entries, index, log, mentions, t);
      }
    } else {
      var q, t :| Affects(entries, q, t) && !Lists(index, t, q);
      var e := entries[q];
      StandsAfter(log, TableChanged(t), q, e, e.tables, mentions);
      var es := Invalidated(entries, index, t).0;
      assert q in es && es[q] == e;
      assert !AllFresh(es, log + [TableChanged(t)], mentions);
    }
  }

  lemma CoveredStaysFresh(entries: Entries, index: Index, log: seq<Event>, mentions: Match, t: Table)
    requires AllFresh(entries, log, mentions) && Covered(entries, index)
    ensures AllFresh(Invalidated(entries, index, t).0, log + [TableChanged(t)], mentions)
  {
    var es := Invalidated(entries, index, t).0;
    forall q | q in es ensures Fresh(log + [TableChanged(t)], q, es[q], mentions) {
      assert q in entries && es[q] == entries[q];
      assert Affects(entries, q, t) ==> Lists(index, t, q);
      StandsAfter(log, TableChanged(t), q, entries[q], entries[q].tables, mentions);
    }
  }

  /** In a coherent cache a table change drops exactly the queries that read the table. */
  lemma CoherentDropsExactly(entries: Entries, index: Index, t: Table)
    requires Coherent(entries, index)
    ensures forall q :: q in Invalidated(entries, index, t).0 <==> q in entries && t !in entries[q].tables
  {
    forall q | q in entries ensures t in entries[q].tables <==> Lists(index, t, q) {
      assert Affects(entries, q, t) <==> Lists(index, t, q);
    }
  }

  lemma LatestAfterChange(entries: Entries, index: Index, log: seq<Event>, mentions: Match, t: Table)
    requires AllLatest(entries, log, mentions)
    ensures AllLatest(Invalidated(entries, index, t).0, log + [TableChanged(t)], mentions)
  {
    var es := Invalidated(entries, index, t).0;
    forall q | q in es ensures Stands(log + [TableChanged(t)], q, es[q], {}, mentions) {
      assert q in entries && es[q] == entries[q];
      StandsAfter(log, TableChanged(t), q, entries[q], {}, mentions);
    }
  }

  /** A put supersedes only the old entry of its own query. */
  lemma StandsAfterPut(entries: Entries, log: seq<Event>, q: Query, e: CacheEntry, mentions: Match)
    ensures var es, log' := entries[q := e], log + [Stored(q, e.result, e.tables, e.createdAt)];
            (AllLatest(entries, log, mentions) ==> AllLatest(es, log', mentions)) &&
            (AllFresh(entries, log, mentions) ==> AllFresh(es, log', mentions))
  {
    var es, ev := entries[q := e], Stored(q, e.result, e.tables, e.createdAt);
    forall p | p in es
      ensures p == q || Stands(log, p, entries[p], {}, mentions) ==> Stands(log + [ev], p, es[p], {}, mentions)
      ensures p == q || Fresh(log, p, entries[p], mentions) ==> Fresh(log + [ev], p, es[p], mentions)
    {
      StandsAfter(log, ev, p, es[p], {}, mentions);
      StandsAfter(log, ev, p, es[p], es[p].tables, mentions);
    }
  }

  function Unmentioned(entries: Entries, mentions: Match, name: string): Entries {
    map q | q in entries && !mentions(q, name) :: entries[q]
  }

  lemma StandsAfterDrop(entries: Entries, log: seq<Event>, name: string, mentions: Match)
    ensures var es, log' := Unmentioned(entries, mentions, name), log + [DatabaseDropped(name)];
            (AllLatest(entries, log, mentions) ==> AllLatest(es, log', mentions)) &&
            (AllFresh(entries, log, mentions) ==> AllFresh(es, log', mentions))
  {
    var es, ev := Unmentioned(entries, mentions, name), DatabaseDropped(name);
    forall p | p in es
      ensures Stands(log, p, entries[p], {}, mentions) ==> Stands(log + [ev], p, es[p], {}, mentions)
      ensures Fresh(log, p, entries[p], mentions) ==> Fresh(log + [ev], p, es[p], mentions)
    {
      StandsAfter(log, ev, p, es[p], {}, mentions);
      StandsAfter(log, ev, p, es[p], es[p].tables, mentions);
    }
  }

  // ---------- Entries thrown out one after another ----------

  /** Some entries have been thrown out, each taken off the index under its own tables. */
  ghost predicate Trimmed(entries0: Entries, index0: Index, entries: Entries, index: Index) {
    entries.Keys <= entries0.Keys && (forall q :: q in entries ==> entries[q] == entries0[q]) &&
    forall q, t :: Lists(index, t, q) <==> Lists(index0, t, q) && (q in entries || !Affects(entries0, q, t))
  }

  lemma NothingTrimmed(entries: Entries, index: Index)
    ensures Trimmed(entries, index, entries, index)
  {
  }

  lemma UnlistedLists(index: Index, q: Query, tables: set<Table>, p: Query, t: Table)
    ensures Lists(Unlisted(index, q, tables), t, p) <==> Lists(index, t, p) && !(p == q && t in tables)
  {
    if t in index && p in index[t] && p != q {
      assert p in index[t] - {q};
    }
  }

  lemma TrimOne(entries0: Entries, index0: Index, entries: Entries, index: Index, q: Query)
    requires Trimmed(entries0, index0, entries, index) && q in entries
    ensures Trimmed(entries0, index0, Without(entries, q), Unlisted(index, q, entries[q].tables))
  {
    var es, ix := Without(entries, q), Unlisted(index, q, entries[q].tables);
    forall p, t ensures Lists(ix, t, p) <==> Lists(index0, t, p) && (p in es || !Affects(entries0, p, t)) {
      UnlistedLists(index, q, entries[q].tables, p, t);
    }
  }

  lemma TrimTwice(entries0: Entries, index0: Index, entries1: Entries, index1: Index, entries: Entries, index: Index)
    requires Trimmed(entries0, index0, entries1, index1) && Trimmed(entries1, index1, entries, index)
    requires NoMoreRecent(entries0.Keys - entries1.Keys, entries1.Keys, entries0)
    requires NoMoreRecent(entries1.Keys - entries.Keys, entries.Keys, entries1)
    ensures Trimmed(entries0, index0, entries, index)
    ensures NoMoreRecent(entries0.Keys - entries.Keys, entries.Keys, entries0)
  {
    forall q, t ensures Lists(index, t, q) <==> Lists(index0, t, q) && (q in entries || !Affects(entries0, q, t)) {
      assert Lists(index1, t, q) <==> Lists(index0, t, q) && (q in entries1 || !Affects(entries0, q, t));
      assert Affects(entries1, q, t) <==> q in entries1 && Affects(entries0, q, t);
    }
  }

  lemma TrimmedAgrees(entries0: Entries, index0: Index, entries: Entries, index: Index)
    requires Trimmed(entries0, index0, entries, index)
    ensures Coherent(entries0, index0) ==> Coherent(entries, index)
    ensures Covered(entries0, index0) ==> Covered(entries, index)
  {
    forall q, t ensures Affects(entries, q, t) <==> Affects(entries0, q, t) && q in entries {
    }
  }

  // ---------- Byte accounting ----------

  ghost function Memory(entries: Entries): nat
    decreases |entries|
  {
    if entries == map[] then 0
    else
      var q :| q in entries;
      assert (entries - {q}).Keys == entries.Keys - {q};
      entries[q].memory + Memory(entries - {q})
  }

  lemma {:induction false} MemoryWithout(entries: Entries, q: Query)
    requires q in entries
    ensures Memory(entries) == entries[q].memory + Memory(Without(entries, q))
    decreases |entries|
  {
    var p :| p in entries && Memory(entries) == entries[p].memory + Memory(entries - {p});
    if p != q {
      var fewer := entries - {p};
      assert fewer.Keys == entries.Keys - {p};
      MemoryWithout(fewer, q);
      assert entries - {q} - {p} == fewer - {q};
      assert (entries - {q}).Keys == entries.Keys - {q};
      MemoryWithout(entries - {q}, p);
    }
  }

  lemma DropNone(entries: Entries)
    ensures Dropped(entries, {}) == entries
  {
  }

  lemma DropOne(entries: Entries, queries: set<Query>, q: Query)
    ensures Dropped(entries, queries + {q}) ==
            if q in Dropped(entries, queries) then Without(Dropped(entries, queries), q) else Dropped(entries, queries)
    ensures q in Dropped(entries, queries) ==> |Without(Dropped(entries, queries), q)| == |Dropped(entries, queries)| - 1
  {
    var es := entries - queries;
    assert (es - {q}).Keys == es.Keys - {q};
    if q !in es {
      assert es - {q} == es;
    }
  }

  lemma MemoryWith(entries: Entries, q: Query, e: CacheEntry)
    ensures Memory(entries[q := e]) == e.memory + Memory(entries - {q})
  {
    MemoryWithout(entries[q := e], q);
    assert entries[q := e] - {q} == entries - {q};
  }

  lemma EmptyMemory(entries: Entries)
    requires entries == map[]
    ensures Memory(entries) == 0
  {
  }

  // ---------- Time ----------

  /** Whole seconds between two times, truncated towards zero. */
  function SecondsTo(a: Millis, b: Millis): int {
    if b >= a then (b - a) / 1000 else -((a - b) / 1000)
  }

  predicate IsExpired(e: CacheEntry, ttlSeconds: nat, now: Millis) {
    ttlSeconds != 0 && SecondsTo(e.createdAt, now) > ttlSeconds
  }

  /** Truncation lets an entry live for almost one second more than its time to live. */
  lemma ExpiryIsAfterOneMoreSecond(e: CacheEntry, ttlSeconds: nat, now: Millis)
    requires ttlSeconds != 0
    ensures IsExpired(e, ttlSeconds, now) <==> now - e.createdAt >= 1000 * (ttlSeconds + 1)
  {
    if now >= e.createdAt {
      var age := now - e.createdAt;
      assert age == 1000 * (age / 1000) + age % 1000;
    }
  }

  /** The entry limit after the conversion to a 32-bit signed integer. */
  function EntryLimit(maxEntries: nat): int {
    var low := maxEntries % 0x1_0000_0000;
    if low < 0x8000_0000 then low else low - 0x1_0000_0000
  }

  /** It is the signed 32-bit number that differs from the given limit by a multiple of 2^32, so a limit of
      2^31 or more is not the one that was asked for. */
  lemma EntryLimitMeans(maxEntries: nat)
    ensures -0x8000_0000 <= EntryLimit(maxEntries) < 0x8000_0000
    ensures (maxEntries - EntryLimit(maxEntries)) % 0x1_0000_0000 == 0
    ensures EntryLimit(maxEntries) == maxEntries <==> maxEntries < 0x8000_0000
  {
    var q := maxEntries / 0x1_0000_0000;
    assert maxEntries == 0x1_0000_0000 * q + maxEntries % 0x1_0000_0000;
  }

  ghost predicate NoMoreRecent(victims: set<Query>, survivors: set<Query>, entries: Entries)
    requires victims <= entries.Keys && survivors <= entries.Keys
  {
    forall v, s :: v in victims && s in survivors ==> entries[v].lastAccessedAt <= entries[s].lastAccessedAt
  }

  class QueryCache {
    var entries: Entries
    var index: Index
    var enabled: bool
    var totalHits: nat
    var totalMisses: nat
    var totalEvictions: nat
    var totalMemoryBytes: nat
    const maxEntries: nat
    const maxMemoryBytes: nat
    const ttlSeconds: nat
    const estimate: QueryResult -> nat
    const mentions: Match
    ghost var log: seq<Event>

    /** What holds in every reachable state, whatever is put. */
    ghost predicate Valid()
      reads this
    {
      totalMemoryBytes == Memory(entries) &&
      |entries| <= Max(1, EntryLimit(maxEntries)) &&
      AllLatest(entries, log, mentions)
    }

    /** What holds while no re-put names a table under which its query is not listed. */
    ghost predicate Sound()
      reads this
    {
      Covered(entries, index) && AllFresh(entries, log, mentions)
    }

    constructor (maxEntries: nat, maxMemoryMB: nat, ttlSeconds: nat, estimate: QueryResult -> nat, mentions: Match)
      ensures Valid() && Sound() && Coherent(entries, index) && totalMemoryBytes <= maxMemoryBytes
      ensures enabled && entries == map[] && index == map[] && totalMemoryBytes == 0 && log == []
      ensures this.maxEntries == maxEntries && maxMemoryBytes == maxMemoryMB * 1024 * 1024 && this.ttlSeconds == ttlSeconds
      ensures this.estimate == estimate && this.mentions == mentions
    {
      entries, index, enabled, log := map[], map[], true, [];
      totalHits, totalMisses, totalEvictions, totalMemoryBytes := 0, 0, 0, 0;
      this.maxEntries, this.maxMemoryBytes, this.ttlSeconds := maxEntries, maxMemoryMB * 1024 * 1024, ttlSeconds;
      this.estimate, this.mentions := estimate, mentions;
    }

    /** Takes `q` off the index under `tables`, as every removal of an entry does. */
    method Unlist(q: Query, tables: set<Table>)
      modifies this`index
      ensures index == Unlisted(old(index), q, tables)
    {
      var todo := tables;
      while todo != {}
        invariant todo <= tables
        invariant index == Unlisted(old(index), q, tables - todo)
      {
        var t :| t in todo;
        if t in index {
          index := index[t := index[t] - {q}];
          if index[t] == {} {
            index := index - {t};
          }
        }
        todo := todo - {t};
        assert index == Unlisted(old(index), q, tables - todo);
      }
      assert tables - todo == tables;
    }

    method RemoveEntry(q: Query)
      requires q in entries && totalMemoryBytes == Memory(entries)
      modifies this`entries, this`index, this`totalMemoryBytes
      ensures entries == Without(old(entries), q) && index == Unlisted(old(index), q, old(entries)[q].tables)
      ensures totalMemoryBytes == Memory(entries) == old(totalMemoryBytes) - old(entries)[q].memory
      ensures |entries| == |old(entries)| - 1
    {
      MemoryWithout(entries, q);
      totalMemoryBytes := totalMemoryBytes - entries[q].memory;
      Unlist(q, entries[q].tables);
      assert (entries - {q}).Keys == entries.Keys - {q};
      entries := entries - {q};
    }

    /** A hit hands out what the latest accepted put stored, at most one second past its time to live;
        while the cache is sound, no table of the query has changed since that put. */
    method Get(q: Query, now: Millis) returns (r: Option<QueryResult>)
      requires Valid()
      modifies this
      ensures Valid() && (old(Sound()) ==> Sound()) && (old(Coherent(entries, index)) ==> Coherent(entries, index))
      ensures totalMemoryBytes <= old(totalMemoryBytes) && enabled == old(enabled) && log == old(log)
      ensures r.Some? <==> enabled && q in old(entries) && !IsExpired(old(entries)[q], ttlSeconds, now)
      ensures r.Some? ==> r.value == old(entries)[q].result && Stands(log, q, old(entries)[q], {}, mentions)
      ensures r.Some? && ttlSeconds != 0 ==> now - old(entries)[q].createdAt < 1000 * (ttlSeconds + 1)
      ensures r.Some? && old(Sound()) ==> Fresh(log, q, old(entries)[q], mentions)
      ensures r.Some? ==> entries.Keys == old(entries).Keys && entries[q].lastAccessedAt == now
      ensures r.None? ==> forall p :: p in entries <==> p in old(entries) && !(enabled && p == q)
      ensures forall p :: p in entries && p != q ==> entries[p] == old(entries)[p]
      ensures totalHits + totalMisses == old(totalHits + totalMisses) + (if enabled then 1 else 0)
      ensures totalHits == old(totalHits) + (if r.Some? then 1 else 0)
    {
      hide Stands, Coherent, Covered, Unlisted, Memory, SecondsTo;
      if !enabled {
        return None;
      }
      if q !in entries {
        totalMisses := totalMisses + 1;
        return None;
      }
      var e := entries[q];
      if IsExpired(e, ttlSeconds, now) {
        RemovalKeeps(entries, index, log, q, mentions);
        RemoveEntry(q);
        totalMisses := totalMisses + 1;
        return None;
      }
      if ttlSeconds != 0 { ExpiryIsAfterOneMoreSecond(e, ttlSeconds, now); }
      totalHits := totalHits + 1;
      var touched := e.(accessCount := e.accessCount + 1, lastAccessedAt := now);
      TouchKeeps(entries, index, log, q, touched, mentions);
      entries := entries[q := touched];
      r := Some(e.result);
    }

    method FindLeastRecent() returns (q: Query)
      requires entries != map[]
      ensures q in entries && forall p :: p in entries ==> entries[q].lastAccessedAt <= entries[p].lastAccessedAt
    {
      q :| q in entries;
      var todo := entries.Keys - {q};
      while todo != {}
        invariant q in entries && q !in todo && todo <= entries.Keys
        invariant forall p :: p in entries && p !in todo ==> entries[q].lastAccessedAt <= entries[p].lastAccessedAt
      {
        var p :| p in todo;
        if entries[p].lastAccessedAt < entries[q].lastAccessedAt {
          q := p;
        }
        todo := todo - {p};
      }
    }

    /** One eviction: the victim is no more recently used than any survivor. */
    method Evict() returns (q: Query)
      requires entries != map[] && totalMemoryBytes == Memory(entries)
      modifies this`entries, this`index, this`totalMemoryBytes, this`totalEvictions
      ensures q in old(entries) && entries == Without(old(entries), q) && index == Unlisted(old(index), q, old(entries)[q].tables)
      ensures forall p :: p in entries ==> old(entries)[q].lastAccessedAt <= entries[p].lastAccessedAt
      ensures totalMemoryBytes == Memory(entries) == old(totalMemoryBytes) - old(entries)[q].memory
      ensures |entries| == |old(entries)| - 1 && totalEvictions == old(totalEvictions) + 1
    {
      q := FindLeastRecent();
      RemoveEntry(q);
      totalEvictions := totalEvictions + 1;
    }

    method EvictLRU() returns (evicted: nat)
      requires totalMemoryBytes == Memory(entries)
      modifies this`entries, this`index, this`totalMemoryBytes, this`totalEvictions
      ensures totalMemoryBytes == Memory(entries) <= old(totalMemoryBytes)
      ensures Trimmed(old(entries), old(index), entries, index)
      ensures NoMoreRecent(old(entries).Keys - entries.Keys, entries.Keys, old(entries))
      ensures evicted == (if old(entries) == map[] then 0 else 1) && |entries| == |old(entries)| - evicted
    {
      if entries == map[] {
        return 0;
      }
      var q := Evict();
      TrimOne(old(entries), old(index), old(entries), old(index), q);
      return 1;
    }

    /** Evicts until enough is freed or nothing is left, and never more than that takes. */
    method EvictToFreeMemory(required: nat) returns (evicted: nat)
      requires totalMemoryBytes == Memory(entries)
      modifies this`entries, this`index, this`totalMemoryBytes, this`totalEvictions
      ensures totalMemoryBytes == Memory(entries) <= old(totalMemoryBytes)
      ensures Trimmed(old(entries), old(index), entries, index) && |entries| == |old(entries)| - evicted
      ensures NoMoreRecent(old(entries).Keys - entries.Keys, entries.Keys, old(entries))
      ensures entries == map[] || old(totalMemoryBytes) - totalMemoryBytes >= required
      ensures evicted > 0 ==>
                exists q :: q in old(entries) && q !in entries && old(totalMemoryBytes) - totalMemoryBytes - old(entries)[q].memory < required
    {
      evicted := 0;
      var freedBytes := 0;
      ghost var last: Query := "";
      while freedBytes < required && entries != map[]
        invariant totalMemoryBytes == Memory(entries) && freedBytes == old(totalMemoryBytes) - totalMemoryBytes
        invariant Trimmed(old(entries), old(index), entries, index) && |entries| == |old(entries)| - evicted
        invariant NoMoreRecent(old(entries).Keys - entries.Keys, entries.Keys, old(entries))
        invariant evicted > 0 ==> last in old(entries) && last !in entries && freedBytes - old(entries)[last].memory < required
        decreases |entries|
      {
        ghost var es, ix := entries, index;
        var before := totalMemoryBytes;
        var q := Evict();
        TrimOne(old(entries), old(index), es, ix, q);
        freedBytes := freedBytes + (before - totalMemoryBytes);
        last := q;
        evicted := evicted + 1;
      }
    }

    /** Makes room: by bytes first, then by entries. */
    method MakeRoom(size: nat)
      requires totalMemoryBytes == Memory(entries) && size <= maxMemoryBytes / 2
      modifies this`entries, this`index, this`totalMemoryBytes, this`totalEvictions
      ensures totalMemoryBytes == Memory(entries) && Trimmed(old(entries), old(index), entries, index)
      ensures NoMoreRecent(old(entries).Keys - entries.Keys, entries.Keys, old(entries))
      ensures old(totalMemoryBytes) <= maxMemoryBytes ==> totalMemoryBytes + size <= maxMemoryBytes
      ensures |entries| < Max(1, EntryLimit(maxEntries))
      ensures old(totalMemoryBytes) + size <= maxMemoryBytes && |old(entries)| < EntryLimit(maxEntries) ==> entries == old(entries) && index == old(index)
    {
      if totalMemoryBytes + size > maxMemoryBytes {
        var _ := EvictToFreeMemory(size);
        if entries == map[] { EmptyMemory(entries); }
      }
      while |entries| >= EntryLimit(maxEntries)
        invariant totalMemoryBytes == Memory(entries) && Trimmed(old(entries), old(index), entries, index)
        invariant NoMoreRecent(old(entries).Keys - entries.Keys, entries.Keys, old(entries))
        invariant old(totalMemoryBytes) <= maxMemoryBytes ==> totalMemoryBytes + size <= maxMemoryBytes
        invariant old(totalMemoryBytes) + size <= maxMemoryBytes && |old(entries)| < EntryLimit(maxEntries) ==> entries == old(entries) && index == old(index)
        decreases |entries|
      {
        ghost var es, ix := entries, index;
        var evicted := EvictLRU();
        TrimTwice(old(entries), old(index), es, ix, entries, index);
        if evicted == 0 {
          break;
        }
      }
    }

    /** Accepts every successful result of at most half the byte budget.  Soundness survives exactly
        when a re-put names only tables under which the query is already listed; coherence exactly
        when it names the same tables; the budget exactly when the replacement fits. */
    method Put(q: Query, result: QueryResult, tables: set<Table>, now: Millis) returns (ok: bool)
      requires Valid()
      modifies this
      ensures Valid() && enabled == old(enabled)
      ensures ok <==> enabled && result.success && estimate(result) <= maxMemoryBytes / 2
      ensures !ok ==> entries == old(entries) && index == old(index) && log == old(log)
      ensures ok ==> log == old(log) + [Stored(q, result, tables, now)]
      ensures ok ==> q in entries && entries[q] == CacheEntry(result, now, now, 0, tables, estimate(result))
      ensures ok && q in old(entries) ==> entries == old(entries)[q := entries[q]] && index == old(index)
      ensures ok && q !in old(entries) ==> PutFresh(old(entries), old(index), entries, index, q)
      ensures ok && q !in old(entries) && old(totalMemoryBytes) + estimate(result) <= maxMemoryBytes && |old(entries)| < EntryLimit(maxEntries) ==>
                entries == old(entries)[q := entries[q]] && index == Listed(old(index), q, tables)
      ensures 1 <= maxEntries < 0x8000_0000 ==> |entries| <= maxEntries
      ensures ok && q !in old(entries) && old(totalMemoryBytes) + estimate(result) <= maxMemoryBytes && |old(entries)| < maxEntries < 0x8000_0000 ==>
                entries == old(entries)[q := entries[q]] && index == Listed(old(index), q, tables)
      ensures old(Sound()) ==> (Sound() <==> (ok && q in old(entries) ==> forall t :: t in tables ==> Lists(old(index), t, q)))
      ensures old(Coherent(entries, index)) ==> (Coherent(entries, index) <==> (ok && q in old(entries) ==> tables == old(entries)[q].tables))
      ensures old(totalMemoryBytes) <= maxMemoryBytes ==>
                (totalMemoryBytes <= maxMemoryBytes <==>
                 (ok && q in old(entries) ==> old(totalMemoryBytes) - old(entries)[q].memory + estimate(result) <= maxMemoryBytes))
    {
      EntryLimitMeans(maxEntries);
      hide Stands, Coherent, Covered, Listed, Memory, Trimmed, NoMoreRecent, PutFresh, EntryLimit, AllLatest;
      if !enabled || !result.success {
        return false;
      }
      var size := estimate(result);
      if size > maxMemoryBytes / 2 {
        return false;
      }
      var e := CacheEntry(result, now, now, 0, tables, size);
      if q in entries {
        ReplaceKeeps(entries, index, log, q, e, mentions);
        totalMemoryBytes := totalMemoryBytes - entries[q].memory;
        entries := entries[q := e];
        totalMemoryBytes := totalMemoryBytes + size;
        log := log + [Stored(q, result, tables, now)];
        return true;
      }
      MakeRoom(size);
      PutKeeps(old(entries), old(index), entries, index, log, q, e, mentions);
      entries := entries[q := e];
      totalMemoryBytes := totalMemoryBytes + size;
      ListUnder(q, tables);
      log := log + [Stored(q, result, tables, now)];
      return true;
    }

    method ListUnder(q: Query, tables: set<Table>)
      modifies this`index
      ensures index == Listed(old(index), q, tables)
    {
      var todo := tables;
      ListedNowhere(index, q);
      assert tables - todo == {};
      while todo != {}
        invariant todo <= tables
        invariant index == Listed(old(index), q, tables - todo)
      {
        var t :| t in todo;
        index := index[t := (if t in index then index[t] else {}) + {q}];
        ListedOnce(old(index), q, tables - todo, t);
        assert tables - (todo - {t}) == tables - todo + {t};
        todo := todo - {t};
      }
      assert tables - todo == tables;
    }

    /** Drops every entry listed under the table, and lists the dropped entries nowhere any more. */
    method InvalidateTable(t: Table) returns (count: nat)
      requires Valid()
      modifies this
      ensures Valid() && (old(Sound()) ==> Sound()) && (old(Coherent(entries, index)) ==> Coherent(entries, index))
      ensures (entries, index) == Invalidated(old(entries), old(index), t) && log == old(log) + [TableChanged(t)]
      ensures old(Coherent(entries, index)) ==> forall q :: q in entries <==> q in old(entries) && t !in old(entries)[q].tables
      ensures count == |old(entries)| - |entries| && totalMemoryBytes <= old(totalMemoryBytes) && enabled == old(enabled)
    {
      hide Stands, Coherent, Covered, Memory, Lists, Affects, AllFresh, AllLatest, Dropped, Forgotten;
      log := log + [TableChanged(t)];
      InvalidationAgrees(entries, index, t);
      LatestAfterChange(entries, index, old(log), mentions, t);
      if old(Sound()) { CoveredStaysFresh(entries, index, old(log), mentions, t); }
      if Coherent(entries, index) { CoherentDropsExactly(entries, index, t); }
      if t !in index {
        return 0;
      }
      var queries := index[t];
      count := DropAll(queries);
      ForgetAll(queries);
      index := index - {t};
    }

    method DropAll(queries: set<Query>) returns (count: nat)
      requires totalMemoryBytes == Memory(entries)
      modifies this`entries, this`totalMemoryBytes
      ensures entries == Dropped(old(entries), queries) && count == |old(entries)| - |entries|
      ensures totalMemoryBytes == Memory(entries) <= old(totalMemoryBytes)
    {
      hide Memory, Dropped, Without;
      count := 0;
      var todo := queries;
      DropNone(entries);
      assert queries - todo == {};
      while todo != {}
        invariant todo <= queries && entries == Dropped(old(entries), queries - todo)
        invariant count == |old(entries)| - |entries| && totalMemoryBytes == Memory(entries) <= old(totalMemoryBytes)
      {
        var q :| q in todo;
        DropOne(old(entries), queries - todo, q);
        assert queries - (todo - {q}) == queries - todo + {q};
        if q in entries {
          MemoryWithout(entries, q);
          totalMemoryBytes := totalMemoryBytes - entries[q].memory;
          entries := Without(entries, q);
          count := count + 1;
        }
        todo := todo - {q};
      }
      assert queries - todo == queries;
    }

    method ForgetAll(queries: set<Query>)
      modifies this`index
      ensures index == Forgotten(old(index), queries)
    {
      var todo := queries;
      ForgetNone(index);
      assert queries - todo == {};
      while todo != {}
        invariant todo <= queries
        invariant index == Forgotten(old(index), queries - todo)
      {
        var q :| q in todo;
        ForgetOne(old(index), queries - todo, q);
        assert queries - (todo - {q}) == queries - todo + {q};
        index := Forgotten(index, {q});
        todo := todo - {q};
      }
      assert queries - todo == queries;
    }

    method InvalidateDatabase(name: string) returns (count: nat)
      requires Valid()
      modifies this
      ensures Valid() && (old(Sound()) ==> Sound()) && (old(Coherent(entries, index)) ==> Coherent(entries, index))
      ensures entries == Unmentioned(old(entries), mentions, name)
      ensures Trimmed(old(entries), old(index), entries, index) && log == old(log) + [DatabaseDropped(name)]
      ensures count == |old(entries)| - |entries| && totalMemoryBytes <= old(totalMemoryBytes) && enabled == old(enabled)
    {
      hide Stands, Coherent, Covered, Memory, Unlisted, Lists, Affects;
      StandsAfterDrop(entries, log, name, mentions);
      NothingTrimmed(entries, index);
      var queries := set q | q in entries && mentions(q, name);
      count := 0;
      while queries != {}
        invariant forall q :: q in queries ==> q in entries && mentions(q, name)
        invariant forall q :: q in old(entries) && (q in queries || !mentions(q, name)) <==> q in entries
        invariant Trimmed(old(entries), old(index), entries, index)
        invariant count == |old(entries)| - |entries| && totalMemoryBytes == Memory(entries) <= old(totalMemoryBytes)
        invariant enabled == old(enabled) && log == old(log)
      {
        var q :| q in queries;
        TrimOne(old(entries), old(index), entries, index, q);
        RemoveEntry(q);
        count := count + 1;
        queries := queries - {q};
      }
      TrimmedAgrees(old(entries), old(index), entries, index);
      assert entries == Unmentioned(old(entries), mentions, name);
      log := log + [DatabaseDropped(name)];
    }

    method Clear()
      requires Valid()
      modifies this
      ensures Valid() && Sound() && Coherent(entries, index) && entries == map[] && totalMemoryBytes == 0
      ensures log == old(log) + [Cleared] && enabled == old(enabled)
    {
      entries, index, totalMemoryBytes := map[], map[], 0;
      log := log + [Cleared];
      EmptyMemory(entries);
    }
  }

  function Max(a: int, b: int): int {
    if a < b then b else a
  }

  /** Reading an entry leaves what it is worth as it was. */
  lemma TouchKeeps(entries: Entries, index: Index, log: seq<Event>, q: Query, touched: CacheEntry, mentions: Match)
    requires q in entries && touched.result == entries[q].result && touched.tables == entries[q].tables
    requires touched.createdAt == entries[q].createdAt && touched.memory == entries[q].memory
    ensures var es := entries[q := touched];
            Memory(es) == Memory(entries) && |es| == |entries| && es.Keys == entries.Keys &&
            (AllLatest(entries, log, mentions) ==> AllLatest(es, log, mentions)) &&
            (AllFresh(entries, log, mentions) ==> AllFresh(es, log, mentions)) &&
            (Coherent(entries, index) ==> Coherent(es, index)) && (Covered(entries, index) ==> Covered(es, index))
  {
    var es := entries[q := touched];
    MemoryWith(entries, q, touched);
    MemoryWithout(entries, q);
    ReplacedEntryAgrees(entries, index, q, touched);
    assert es.Keys == entries.Keys;
    assert |es| == |es.Keys| == |entries.Keys|;
    if Covered(entries, index) {
      forall t | t in touched.tables ensures Lists(index, t, q) {
        assert Affects(entries, q, t);
      }
    }
    forall p | p in es
      ensures Stands(log, p, entries[p], {}, mentions) ==> Stands(log, p, es[p], {}, mentions)
      ensures Fresh(log, p, entries[p], mentions) ==> Fresh(log, p, es[p], mentions)
    {
    }
  }

  lemma RemovalKeeps(entries: Entries, index: Index, log: seq<Event>, q: Query, mentions: Match)
    requires q in entries
    ensures var es, ix := Without(entries, q), Unlisted(index, q, entries[q].tables);
            (AllLatest(entries, log, mentions) ==> AllLatest(es, log, mentions)) &&
            (AllFresh(entries, log, mentions) ==> AllFresh(es, log, mentions)) &&
            (Coherent(entries, index) ==> Coherent(es, ix)) && (Covered(entries, index) ==> Covered(es, ix))
  {
    TrimOne(entries, index, entries, index, q);
    TrimmedAgrees(entries, index, Without(entries, q), Unlisted(index, q, entries[q].tables));
  }

  /** What a put of a new query leaves: the survivors of eviction and the new entry, each listed as
      before or under the new tables, with no survivor less recently used than a victim. */
  ghost predicate PutFresh(entries0: Entries, index0: Index, entries: Entries, index: Index, q: Query) {
    q in entries && entries.Keys - {q} <= entries0.Keys && (forall p :: p in entries && p != q ==> entries[p] == entries0[p]) &&
    NoMoreRecent(entries0.Keys - entries.Keys, entries.Keys - {q}, entries0) &&
    forall p, t :: Lists(index, t, p) <==>
      (Lists(index0, t, p) && (p in entries || !Affects(entries0, p, t))) || (p == q && t in entries[q].tables)
  }

  lemma ReplaceKeeps(entries: Entries, index: Index, log: seq<Event>, q: Query, e: CacheEntry, mentions: Match)
    requires q in entries
    ensures var es, log' := entries[q := e], log + [Stored(q, e.result, e.tables, e.createdAt)];
            Memory(es) == Memory(entries) - entries[q].memory + e.memory && |es| == |entries| && entries[q].memory <= Memory(entries) &&
            (AllLatest(entries, log, mentions) ==> AllLatest(es, log', mentions)) &&
            (AllFresh(entries, log, mentions) ==> AllFresh(es, log', mentions)) &&
            (Coherent(entries, index) ==> (Coherent(es, index) <==> e.tables == entries[q].tables)) &&
            (Covered(entries, index) ==> (Covered(es, index) <==> forall t :: t in e.tables ==> Lists(index, t, q)))
  {
    var es := entries[q := e];
    MemoryWith(entries, q, e);
    MemoryWithout(entries, q);
    assert es.Keys == entries.Keys;
    assert |es| == |es.Keys| == |entries.Keys|;
    ReplacedEntryAgrees(entries, index, q, e);
    StandsAfterPut(entries, log, q, e, mentions);
  }

  lemma PutListed(entries0: Entries, index0: Index, entries: Entries, index: Index, q: Query, e: CacheEntry)
    requires q !in entries0 && Trimmed(entries0, index0, entries, index)
    requires NoMoreRecent(entries0.Keys - entries.Keys, entries.Keys, entries0)
    ensures PutFresh(entries0, index0, entries[q := e], Listed(index, q, e.tables), q)
  {
    var es, ix := entries[q := e], Listed(index, q, e.tables);
    assert es.Keys - {q} == entries.Keys && entries0.Keys - es.Keys == entries0.Keys - entries.Keys;
    forall p, t ensures Lists(ix, t, p) <==>
      (Lists(index0, t, p) && (p in es || !Affects(entries0, p, t))) || (p == q && t in es[q].tables)
    {
      assert Lists(ix, t, p) <==> Lists(index, t, p) || (p == q && t in e.tables);
    }
  }

  lemma FewerStand(entries0: Entries, entries: Entries, log: seq<Event>, mentions: Match)
    requires entries.Keys <= entries0.Keys && forall q :: q in entries ==> entries[q] == entries0[q]
    ensures AllLatest(entries0, log, mentions) ==> AllLatest(entries, log, mentions)
    ensures AllFresh(entries0, log, mentions) ==> AllFresh(entries, log, mentions)
  {
    hide Stands;
  }

  lemma PutKeeps(entries0: Entries, index0: Index, entries: Entries, index: Index, log: seq<Event>, q: Query, e: CacheEntry, mentions: Match)
    requires q !in entries0 && Trimmed(entries0, index0, entries, index)
    requires NoMoreRecent(entries0.Keys - entries.Keys, entries.Keys, entries0)
    ensures var es, ix, log' := entries[q := e], Listed(index, q, e.tables), log + [Stored(q, e.result, e.tables, e.createdAt)];
            Memory(es) == Memory(entries) + e.memory && |es| == |entries| + 1 && PutFresh(entries0, index0, es, ix, q) &&
            (AllLatest(entries0, log, mentions) ==> AllLatest(es, log', mentions)) &&
            (AllFresh(entries0, log, mentions) ==> AllFresh(es, log', mentions)) &&
            (Coherent(entries0, index0) ==> Coherent(es, ix)) && (Covered(entries0, index0) ==> Covered(es, ix))
  {
    hide Memory, AllFresh, AllLatest, PutFresh, Listed, Coherent, Covered, Stands, NoMoreRecent, Lists, Affects;
    PutListed(entries0, index0, entries, index, q, e);
    TrimmedAgrees(entries0, index0, entries, index);
    FewerStand(entries0, entries, log, mentions);
    var es := entries[q := e];
    MemoryWith(entries, q, e);
    assert entries - {q} == entries;
    assert es.Keys == entries.Keys + {q};
    assert |es| == |es.Keys|;
    NewEntryAgrees(entries, index, q, e);
    StandsAfterPut(entries, log, q, e, mentions);
  }

  /** A re-put that names another table: the cache then serves its result after that table changed. */
  method StaleHit(q: Query, a: Table, b: Table, rows: seq<seq<string>>) returns (c: QueryCache, r: Option<QueryResult>)
    requires a != b
    ensures var result := QueryResult(true, [], rows, "");
            c.log == [Stored(q, result, {a}, 0), Stored(q, result, {b}, 0), TableChanged(b)] && r == Some(result)
  {
    hide Memory, Stands, Coherent, Covered, AllFresh, AllLatest, PutFresh, Unlisted, Listed, Lists, Dropped, Forgotten, SecondsTo;
    var result := QueryResult(true, [], rows, "");
    assert EntryLimit(10) == 10;
    c := new QueryCache(10, 1, 0, _ => 100, (_, _) => false);
    var first := c.Put(q, result, {a}, 0);
    OtherTableUnlisted(q, a, b);
    assert c.index == Listed(map[], q, {a}) && c.log == [Stored(q, result, {a}, 0)];
    var second := c.Put(q, result, {b}, 0);
    assert b !in c.index && q in c.entries && c.log == [Stored(q, result, {a}, 0), Stored(q, result, {b}, 0)];
    var dropped := c.InvalidateTable(b);
    assert c.entries[q].result == result;
    r := c.Get(q, 0);
  }
}
