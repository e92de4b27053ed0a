/**
 * The hash index: a directory of buckets, each a chain of pages.  The index works on the bytes of the
 * pages; `pages` is what those bytes read as, and `live` the multimap the index stands for, as a
 * multiset of (key, row id) pairs.
 */
module HashIndexes {
  import opened Options
  import opened Numbers
  import opened HashBuckets
  import HashBucketPages

  type Pages = map<PageId, Bucket>
  type Chain = seq<PageId>
  type Hash = Key -> nat

  function IndexOf(hash: Hash, n: nat, key: Key): nat {
    if n == 0 then hash(key) else hash(key) % n
  }

  // ---------- One chain ----------

  predicate NoKeyTwice(entries: seq<Entry>) {
    forall i, j :: 0 <= i < j < |entries| ==> entries[i].key != entries[j].key
  }

  ghost predicate EntryOk(e: Entry, hash: Hash, n: nat, i: nat) {
    e.key != [] && e.value != INVALID_ROW_ID && IndexOf(hash, n, e.key) == i
  }

  ghost predicate BucketOk(entries: seq<Entry>, hash: Hash, n: nat, i: nat) {
    Used(entries) <= MAX_ENTRY_SPACE && NoKeyTwice(entries) && forall j :: 0 <= j < |entries| ==> EntryOk(entries[j], hash, n, i)
  }

  predicate Linked(pages: Pages, chain: Chain, k: nat)
    requires k < |chain|
  {
    chain[k] in pages && chain[k] != INVALID_PAGE_ID &&
    pages[chain[k]].next == if k + 1 < |chain| then chain[k + 1] else INVALID_PAGE_ID
  }

  ghost predicate PageOk(pages: Pages, chain: Chain, hash: Hash, n: nat, i: nat, k: nat) {
    k < |chain| && Linked(pages, chain, k) && BucketOk(pages[chain[k]].entries, hash, n, i)
  }

  predicate Distinct(chain: Chain) {
    forall j, k :: 0 <= j < k < |chain| ==> chain[j] != chain[k]
  }

  ghost predicate ChainOk(pages: Pages, chain: Chain, hash: Hash, n: nat, i: nat) {
    chain != [] && Distinct(chain) &&
    forall k {:trigger PageOk(pages, chain, hash, n, i, k)} :: 0 <= k < |chain| ==> PageOk(pages, chain, hash, n, i, k)
  }

  /** Everything a chain holds, page after page. */
  ghost function Flat(pages: Pages, chain: Chain): seq<Entry> {
    if chain == [] then []
    else (if chain[0] in pages then pages[chain[0]].entries else []) + Flat(pages, chain[1..])
  }

  lemma {:induction false} FlatAppend(pages: Pages, a: Chain, b: Chain)
    ensures Flat(pages, a + b) == Flat(pages, a) + Flat(pages, b)
  {
    if a == [] {
      assert a + b == b;
    } else {
      assert (a + b)[1..] == a[1..] + b && (a + b)[0] == a[0];
      FlatAppend(pages, a[1..], b);
      var head := if a[0] in pages then pages[a[0]].entries else [];
      assert Flat(pages, a + b) == head + Flat(pages, a[1..] + b);
    }
  }

  lemma {:induction false} FlatFrame(pages: Pages, pages': Pages, chain: Chain)
    requires forall p :: p in chain ==> (p in pages <==> p in pages') && (p in pages ==> pages[p].entries == pages'[p].entries)
    ensures Flat(pages, chain) == Flat(pages', chain)
  {
    if chain != [] {
      assert chain[0] in chain;
      assert forall p :: p in chain[1..] ==> p in chain;
      FlatFrame(pages, pages', chain[1..]);
    }
  }

  /** The chain split at page `k`. */
  lemma FlatAt(pages: Pages, chain: Chain, k: nat)
    requires k < |chain| && chain[k] in pages
    ensures Flat(pages, chain) == Flat(pages, chain[..k]) + pages[chain[k]].entries + Flat(pages, chain[k + 1..])
    ensures multiset(Flat(pages, chain)) ==
            multiset(Flat(pages, chain[..k])) + multiset(pages[chain[k]].entries) + multiset(Flat(pages, chain[k + 1..]))
  {
    var rest := chain[k..];
    assert chain == chain[..k] + rest && rest[1..] == chain[k + 1..] && rest[0] == chain[k];
    FlatAppend(pages, chain[..k], rest);
    assert Flat(pages, rest) == pages[chain[k]].entries + Flat(pages, chain[k + 1..]);
    assert Flat(pages, chain) == Flat(pages, chain[..k]) + pages[chain[k]].entries + Flat(pages, chain[k + 1..]);
  }

  /** Rewriting the entries of one page of the chain exchanges just those entries. */
  lemma RewritePage(pages: Pages, chain: Chain, hash: Hash, n: nat, i: nat, k: nat, entries: seq<Entry>)
    requires ChainOk(pages, chain, hash, n, i) && k < |chain| && BucketOk(entries, hash, n, i)
    ensures chain[k] in pages
    ensures var pages' := pages[chain[k] := pages[chain[k]].(entries := entries)];
            ChainOk(pages', chain, hash, n, i) &&
            multiset(Flat(pages', chain)) == multiset(Flat(pages, chain)) - multiset(pages[chain[k]].entries) + multiset(entries)
  {
    hide BucketOk;
    assert PageOk(pages, chain, hash, n, i, k);
    var p := chain[k];
    var pages' := pages[p := pages[p].(entries := entries)];
    forall j | 0 <= j < |chain| ensures PageOk(pages', chain, hash, n, i, j) {
      assert PageOk(pages, chain, hash, n, i, j);
    }
    FlatAt(pages, chain, k);
    FlatAt(pages', chain, k);
    assert p !in chain[..k] && p !in chain[k + 1..];
    FlatFrame(pages, pages', chain[..k]);
    FlatFrame(pages, pages', chain[k + 1..]);
  }

  lemma UsedNone()
    ensures Used([]) == 0
  {
  }

  /** Linking a fresh empty page to the end of the chain adds nothing. */
  lemma ExtendChain(pages: Pages, chain: Chain, hash: Hash, n: nat, i: nat, p: PageId)
    requires ChainOk(pages, chain, hash, n, i) && p !in pages && p != INVALID_PAGE_ID
    ensures var last := chain[|chain| - 1];
            last in pages && var pages' := pages[p := Bucket([], INVALID_PAGE_ID)][last := pages[last].(next := p)];
            ChainOk(pages', chain + [p], hash, n, i) && Flat(pages', chain + [p]) == Flat(pages, chain)
  {
    hide EntryOk, Used;
    assert Used([]) == 0 by { UsedNone(); }
    var last := chain[|chain| - 1];
    assert PageOk(pages, chain, hash, n, i, |chain| - 1);
    var pages' := pages[p := Bucket([], INVALID_PAGE_ID)][last := pages[last].(next := p)];
    var longer := chain + [p];
    forall j | 0 <= j < |chain| ensures PageOk(pages, chain, hash, n, i, j) && chain[j] != p {
    }
    forall j | 0 <= j < |longer| ensures PageOk(pages', longer, hash, n, i, j) {
      if j < |chain| {
        assert longer[j] == chain[j] && PageOk(pages, chain, hash, n, i, j);
      }
    }
    FlatAppend(pages', chain, [p]);
    assert [p][1..] == [];
    assert Flat(pages', [p]) == [];
    FlatFrame(pages, pages', chain);
  }

  lemma OtherPages(pages: Pages, pages': Pages, chain: Chain, hash: Hash, n: nat, i: nat)
    requires ChainOk(pages, chain, hash, n, i)
    requires forall p :: p in chain && p in pages ==> p in pages' && pages'[p] == pages[p]
    ensures ChainOk(pages', chain, hash, n, i) && Flat(pages', chain) == Flat(pages, chain)
  {
    hide BucketOk;
    forall j | 0 <= j < |chain| ensures PageOk(pages', chain, hash, n, i, j) {
      assert PageOk(pages, chain, hash, n, i, j);
      assert chain[j] in chain;
    }
    forall p | p in chain ensures p in pages {
      var j :| 0 <= j < |chain| && chain[j] == p;
      assert PageOk(pages, chain, hash, n, i, j);
    }
    FlatFrame(pages, pages', chain);
  }

  // ---------- The whole index ----------

  datatype State = State(directory: map<nat, PageId>, pages: Pages, chains: map<nat, Chain>, live: multiset<Entry>, nextId: int)

  ghost function Stored(s: State, i: nat): multiset<Entry> {
    if i in s.chains then multiset(Flat(s.pages, s.chains[i])) else multiset{}
  }

  ghost predicate BucketAt(s: State, hash: Hash, n: nat, i: nat) {
    i in s.chains && i < n && i in s.directory && ChainOk(s.pages, s.chains[i], hash, n, i) && s.directory[i] == s.chains[i][0]
  }

  /** No page belongs to two chains. */
  ghost predicate Apart(s: State, i: nat, j: nat) {
    i in s.chains && j in s.chains && i != j ==> forall p :: p in s.chains[i] ==> p !in s.chains[j]
  }

  ghost predicate Counted(s: State, hash: Hash, n: nat, e: Entry) {
    s.live[e] == Stored(s, IndexOf(hash, n, e.key))[e]
  }

  ghost predicate Inv(s: State, hash: Hash, n: nat) {
    s.directory.Keys == s.chains.Keys && s.nextId >= 1 &&
    (forall i {:trigger BucketAt(s, hash, n, i)} :: i in s.chains ==> BucketAt(s, hash, n, i)) &&
    (forall p :: p in s.pages ==> p < s.nextId) &&
    (forall i, j {:trigger Apart(s, i, j)} :: 0 <= i && 0 <= j ==> Apart(s, i, j)) &&
    (forall e {:trigger Counted(s, hash, n, e)} :: Counted(s, hash, n, e))
  }

  lemma ChainPages(s: State, hash: Hash, n: nat, i: nat)
    requires Inv(s, hash, n) && i in s.chains
    ensures s.chains[i] != [] && forall p :: p in s.chains[i] ==> p in s.pages && p != INVALID_PAGE_ID
  {
    hide BucketOk;
    assert BucketAt(s, hash, n, i);
    forall p | p in s.chains[i] ensures p in s.pages && p != INVALID_PAGE_ID {
      var j :| 0 <= j < |s.chains[i]| && s.chains[i][j] == p;
      assert PageOk(s.pages, s.chains[i], hash, n, i, j);
    }
  }

  /** `s'` differs from `s` only in the chain of bucket `i`, which may have got fresh pages. */
  ghost predicate OnlyBucket(s: State, s': State, i: nat) {
    i in s.chains && i in s'.chains && s'.directory == s.directory && s'.chains == s.chains[i := s'.chains[i]] &&
    (forall p :: p in s.pages && p !in s.chains[i] ==> p in s'.pages && s'.pages[p] == s.pages[p]) &&
    (forall p :: p in s'.chains[i] ==> p in s.chains[i] || p !in s.pages)
  }

  lemma OtherBucket(s: State, s': State, hash: Hash, n: nat, i: nat, j: nat)
    requires Inv(s, hash, n) && OnlyBucket(s, s', i) && j in s.chains && j != i
    ensures Stored(s', j) == Stored(s, j) && BucketAt(s', hash, n, j) && Apart(s', i, j) && Apart(s', j, i)
  {
    hide ChainOk, Flat, IndexOf;
    assert BucketAt(s, hash, n, j) && Apart(s, j, i) && Apart(s, i, j);
    ChainPages(s, hash, n, j);
    OtherPages(s.pages, s'.pages, s.chains[j], hash, n, j);
  }

  /** A step on one bucket that exchanges the entries `out` for `added`. */
  lemma OneBucketStep(s: State, s': State, hash: Hash, n: nat, i: nat, out: multiset<Entry>, added: multiset<Entry>)
    requires Inv(s, hash, n) && OnlyBucket(s, s', i)
    requires ChainOk(s'.pages, s'.chains[i], hash, n, i) && s'.directory[i] == s'.chains[i][0]
    requires s.nextId <= s'.nextId && forall p :: p in s'.pages ==> p < s'.nextId
    requires out <= Stored(s, i) && Stored(s', i) == Stored(s, i) - out + added
    requires forall e :: e in out || e in added ==> IndexOf(hash, n, e.key) == i
    requires s'.live == s.live - out + added
    ensures Inv(s', hash, n)
  {
    hide ChainOk, Flat, IndexOf, Counted, Apart;
    assert BucketAt(s, hash, n, i);
    forall j | j in s'.chains ensures BucketAt(s', hash, n, j) {
      if j != i { OtherBucket(s, s', hash, n, i, j); }
    }
    forall e ensures Counted(s', hash, n, e) {
      StillCounted(s, s', hash, n, i, out, added, e);
    }
    forall a, b | 0 <= a && 0 <= b ensures Apart(s', a, b) {
      StillApart(s, s', hash, n, i, a, b);
    }
  }

  lemma StillCounted(s: State, s': State, hash: Hash, n: nat, i: nat, out: multiset<Entry>, added: multiset<Entry>, e: Entry)
    requires Inv(s, hash, n) && OnlyBucket(s, s', i)
    requires out <= Stored(s, i) && Stored(s', i) == Stored(s, i) - out + added
    requires e in out || e in added ==> IndexOf(hash, n, e.key) == i
    requires s'.live == s.live - out + added
    ensures Counted(s', hash, n, e)
  {
    hide ChainOk, Flat, IndexOf, BucketAt, Apart;
    assert Counted(s, hash, n, e);
    var j := IndexOf(hash, n, e.key);
    if j != i && j in s.chains { OtherBucket(s, s', hash, n, i, j); }
  }

  lemma StillApart(s: State, s': State, hash: Hash, n: nat, i: nat, a: nat, b: nat)
    requires Inv(s, hash, n) && OnlyBucket(s, s', i)
    ensures Apart(s', a, b)
  {
    hide ChainOk, Flat, IndexOf, BucketAt, Counted;
    assert Apart(s, a, b);
    if a == i && b in s.chains && b != i { OtherBucket(s, s', hash, n, i, b); }
    if b == i && a in s.chains && a != i { OtherBucket(s, s', hash, n, i, a); }
  }

  function WithBucket(s: State, i: nat, p: PageId): State {
    State(s.directory[i := p], s.pages[p := Bucket([], INVALID_PAGE_ID)], s.chains[i := [p]], s.live, s.nextId + 1)
  }

  lemma OldBucket(s: State, hash: Hash, n: nat, i: nat, p: PageId, j: nat)
    requires Inv(s, hash, n) && i !in s.chains && p == s.nextId && j in s.chains
    ensures BucketAt(WithBucket(s, i, p), hash, n, j) && Stored(WithBucket(s, i, p), j) == Stored(s, j) && p !in s.chains[j]
  {
    hide ChainOk, Flat, IndexOf;
    assert BucketAt(s, hash, n, j);
    ChainPages(s, hash, n, j);
    OtherPages(s.pages, WithBucket(s, i, p).pages, s.chains[j], hash, n, j);
  }

  /** A bucket is created with one fresh empty page. */
  lemma NewBucketStep(s: State, hash: Hash, n: nat, i: nat, p: PageId)
    requires Inv(s, hash, n) && i < n && i !in s.chains && p == s.nextId && p != INVALID_PAGE_ID
    ensures Inv(WithBucket(s, i, p), hash, n)
  {
    hide IndexOf;
    var s' := WithBucket(s, i, p);
    assert Flat(s'.pages, [p]) == [] by { assert [p][1..] == []; }
    assert PageOk(s'.pages, [p], hash, n, i, 0);
    assert BucketAt(s', hash, n, i);
    hide ChainOk, Flat;
    forall j | j in s'.chains ensures BucketAt(s', hash, n, j) {
      if j != i { OldBucket(s, hash, n, i, p, j); }
    }
    forall e ensures Counted(s', hash, n, e) {
      assert Counted(s, hash, n, e);
      var j := IndexOf(hash, n, e.key);
      if j in s.chains { OldBucket(s, hash, n, i, p, j); }
    }
    forall a, b | 0 <= a && 0 <= b ensures Apart(s', a, b) {
      assert Apart(s, a, b);
      if a in s.chains { OldBucket(s, hash, n, i, p, a); }
      if b in s.chains { OldBucket(s, hash, n, i, p, b); }
    }
  }

  /** One page of bucket `i` gets other entries, and nothing else changes. */
  lemma PageStep(s: State, hash: Hash, n: nat, i: nat, k: nat, entries: seq<Entry>, out: multiset<Entry>, added: multiset<Entry>)
    requires Inv(s, hash, n) && i in s.chains && k < |s.chains[i]| && s.chains[i][k] in s.pages && BucketOk(entries, hash, n, i)
    requires out <= multiset(s.pages[s.chains[i][k]].entries)
    requires multiset(entries) == multiset(s.pages[s.chains[i][k]].entries) - out + added
    requires forall e :: e in out || e in added ==> IndexOf(hash, n, e.key) == i
    ensures var p := s.chains[i][k];
            Inv(s.(pages := s.pages[p := s.pages[p].(entries := entries)], live := s.live - out + added), hash, n)
  {
    hide IndexOf, BucketOk, ChainOk, Flat, Counted, Apart;
    var p := s.chains[i][k];
    var s' := s.(pages := s.pages[p := s.pages[p].(entries := entries)], live := s.live - out + added);
    assert BucketAt(s, hash, n, i);
    RewritePage(s.pages, s.chains[i], hash, n, i, k, entries);
    FlatAt(s.pages, s.chains[i], k);
    Exchange(Stored(s, i), multiset(s.pages[p].entries), multiset(entries), out, added);
    assert s'.chains == s.chains[i := s'.chains[i]];
    assert p in s.chains[i];
    OneBucketStep(s, s', hash, n, i, out, added);
  }

  lemma Exchange(total: multiset<Entry>, before: multiset<Entry>, after: multiset<Entry>, out: multiset<Entry>, added: multiset<Entry>)
    requires out <= before <= total && after == before - out + added
    ensures out <= total && total - before + after == total - out + added
  {
  }

  lemma GrowStep(s: State, hash: Hash, n: nat, i: nat, p: PageId)
    requires Inv(s, hash, n) && i in s.chains && p == s.nextId && p != INVALID_PAGE_ID
    ensures s.chains[i] != [] && var last := s.chains[i][|s.chains[i]| - 1];
            last in s.pages &&
            Inv(s.(pages := s.pages[p := Bucket([], INVALID_PAGE_ID)][last := s.pages[last].(next := p)],
                   chains := s.chains[i := s.chains[i] + [p]], nextId := s.nextId + 1), hash, n)
  {
    hide IndexOf, BucketOk, ChainOk, Flat, Counted, Apart;
    assert BucketAt(s, hash, n, i);
    ChainPages(s, hash, n, i);
    ExtendChain(s.pages, s.chains[i], hash, n, i, p);
    var last := s.chains[i][|s.chains[i]| - 1];
    var s' := s.(pages := s.pages[p := Bucket([], INVALID_PAGE_ID)][last := s.pages[last].(next := p)],
                 chains := s.chains[i := s.chains[i] + [p]], nextId := s.nextId + 1);
    assert last in s.chains[i];
    OneBucketStep(s, s', hash, n, i, multiset{}, multiset{});
  }

  lemma AppendOk(entries: seq<Entry>, hash: Hash, n: nat, i: nat, e: Entry)
    requires BucketOk(entries, hash, n, i) && Accepts(entries, e.key) && EntryOk(e, hash, n, i)
    ensures BucketOk(entries + [e], hash, n, i)
  {
    UsedAppend(entries, [e]);
    assert [e][1..] == [];
  }

  lemma RemoveOk(entries: seq<Entry>, hash: Hash, n: nat, i: nat, j: nat)
    requires BucketOk(entries, hash, n, i) && j < |entries|
    ensures BucketOk(Removed(entries, j), hash, n, i)
    ensures multiset(Removed(entries, j)) == multiset(entries) - multiset{entries[j]}
  {
    assert entries == entries[..j] + [entries[j]] + entries[j + 1..];
    UsedAppend(entries[..j] + [entries[j]], entries[j + 1..]);
    UsedAppend(entries[..j], [entries[j]]);
    UsedAppend(entries[..j], entries[j + 1..]);
  }

  /** What the pages of a bucket say about one key is what the multimap says. */
  lemma LiveIsStored(s: State, hash: Hash, n: nat, key: Key, v: RowId)
    requires Inv(s, hash, n)
    ensures var i := IndexOf(hash, n, key);
            s.live[Entry(key, v)] == if i in s.chains then multiset(ValuesOf(Flat(s.pages, s.chains[i]), key))[v] else 0
  {
    var i := IndexOf(hash, n, key);
    assert Counted(s, hash, n, Entry(key, v));
    if i in s.chains { ValuesOfCounts(Flat(s.pages, s.chains[i]), key, v); }
  }

  /** The stored bytes of every page read as the page. */
  ghost predicate OnDisk(disk: map<PageId, seq<Byte>>, pages: Pages) {
    disk.Keys == pages.Keys && forall p :: p in disk ==> ReadAs(disk[p], pages[p])
  }

  ghost predicate ReadAs(bytes: seq<Byte>, b: Bucket) {
    |bytes| == PAGE_SIZE && HashBucketPages.Parse(bytes) == Some(b)
  }

  class HashIndex {
    const numBuckets: nat
    const hash: Hash
    var directoryPageId: PageId
    var directory: map<nat, PageId>
    var disk: map<PageId, seq<Byte>>
    var nextId: int
    ghost var pages: Pages
    ghost var chains: map<nat, Chain>
    ghost var live: multiset<Entry>

    ghost function View(): State
      reads this
    {
      State(directory, pages, chains, live, nextId)
    }

    ghost predicate Valid()
      reads this
    {
      Inv(View(), hash, numBuckets) && (directoryPageId == INVALID_PAGE_ID ==> directory == map[]) && OnDisk(disk, pages)
    }

    predicate Exhausted()
      reads this
    {
      nextId >= 0x1_0000_0000
    }

    constructor (numBuckets: nat, hash: Hash)
      requires numBuckets <= 0x8000_0000
      ensures Valid() && live == multiset{} && this.hash == hash
      ensures PowerOfTwo(this.numBuckets) && numBuckets <= this.numBuckets && (numBuckets > 0 ==> this.numBuckets < 2 * numBuckets)
    {
      var rounded := RoundUp(numBuckets);
      this.numBuckets, this.hash := rounded, hash;
      directoryPageId, directory, disk, nextId := INVALID_PAGE_ID, map[], map[], 1;
      pages, chains, live := map[], map[], multiset{};
      new;
      hide IndexOf;
      forall e ensures Counted(View(), hash, this.numBuckets, e) {
      }
    }

    method NewPageId() returns (p: PageId)
      modifies this`nextId
      ensures old(Exhausted()) ==> p == INVALID_PAGE_ID && nextId == old(nextId)
      ensures !old(Exhausted()) && old(nextId) >= 1 ==> p == old(nextId) && nextId == old(nextId) + 1
    {
      if nextId >= 0x1_0000_0000 || nextId < 0 {
        return INVALID_PAGE_ID;
      }
      p := nextId;
      nextId := nextId + 1;
    }

    /** The buffer pool reads a page into a frame. */
    method FetchPage(p: PageId) returns (frame: array<Byte>)
      requires OnDisk(disk, pages) && p in pages
      ensures fresh(frame) && HashBucketPages.Reads(frame, pages[p])
    {
      hide HashBucketPages.Parse;
      var bytes := disk[p];
      assert ReadAs(bytes, pages[p]);
      frame := new Byte[PAGE_SIZE](i requires 0 <= i < PAGE_SIZE => bytes[i]);
      assert frame[..] == bytes;
    }

    /** And writes a frame back. */
    method UnpinDirty(p: PageId, frame: array<Byte>, ghost b: Bucket)
      requires OnDisk(disk, pages) && HashBucketPages.Reads(frame, b)
      modifies this`disk, this`pages
      ensures OnDisk(disk, pages) && pages == old(pages)[p := b]
    {
      hide HashBucketPages.Parse;
      disk := disk[p := frame[..]];
      pages := pages[p := b];
      forall q | q in disk ensures ReadAs(disk[q], pages[q]) {
      }
    }

    method NewPage(p: PageId)
      requires OnDisk(disk, pages)
      modifies this`disk, this`pages
      ensures OnDisk(disk, pages) && pages == old(pages)[p := Bucket([], INVALID_PAGE_ID)]
    {
      hide OnDisk, HashBucketPages.Reads;
      var frame := new Byte[PAGE_SIZE];
      HashBucketPages.Initialize(frame);
      UnpinDirty(p, frame, Bucket([], INVALID_PAGE_ID));
    }

    method NextPage(p: PageId) returns (next: PageId)
      requires OnDisk(disk, pages) && p in pages
      ensures next == pages[p].next
    {
      hide OnDisk, HashBucketPages.Reads;
      var frame := FetchPage(p);
      next := HashBucketPages.GetNextBucketPageId(frame, pages[p]);
    }

    /** The first page of a bucket, created if need be; 0 only if there is no such bucket or no page
        is left. */
    method GetBucketPageId(i: nat) returns (p: PageId)
      requires Valid()
      modifies this
      ensures Valid() && live == old(live)
      ensures p == INVALID_PAGE_ID ==> i !in chains && (i >= numBuckets || Exhausted())
      ensures p != INVALID_PAGE_ID ==> i < numBuckets && i in chains && chains[i] != [] && chains[i][0] == p && p in pages
    {
      hide ChainOk, Flat, IndexOf, Counted, OnDisk;
      if i >= numBuckets {
        assert i in chains ==> BucketAt(View(), hash, numBuckets, i);
        return INVALID_PAGE_ID;
      }
      if directoryPageId == INVALID_PAGE_ID {
        directoryPageId := NewPageId();
        MoreIds(old(View()), View(), hash, numBuckets);
        if directoryPageId == INVALID_PAGE_ID {
          return INVALID_PAGE_ID;
        }
      }
      if i in directory {
        assert BucketAt(View(), hash, numBuckets, i);
        ChainPages(View(), hash, numBuckets, i);
        assert chains[i][0] in chains[i];
        return directory[i];
      }
      ghost var s := View();
      p := NewPageId();
      if p == INVALID_PAGE_ID {
        return;
      }
      NewBucketStep(s, hash, numBuckets, i, p);
      NewPage(p);
      directory, chains := directory[i := p], chains[i := [p]];
    }

    /** Page `p`, the k-th of bucket `i`, takes the entry if it accepts it. */
    method InsertIntoPage(p: PageId, key: Key, value: RowId, ghost i: nat, ghost k: nat) returns (ok: bool)
      requires Valid() && i in chains && k < |chains[i]| && p == chains[i][k] && p in pages
      requires key != [] && value != INVALID_ROW_ID && IndexOf(hash, numBuckets, key) == i
      modifies this`disk, this`pages, this`live
      ensures Valid() && (ok <==> Accepts(old(pages)[p].entries, key)) && pages.Keys == old(pages).Keys
      ensures live == old(live) + if ok then multiset{Entry(key, value)} else multiset{}
      ensures !ok ==> pages == old(pages)
    {
      hide ChainOk, Flat, IndexOf, Counted, Apart, BucketOk, Accepts, OnDisk, HashBucketPages.Reads, Inv;
      var frame := FetchPage(p);
      ok := HashBucketPages.Insert(frame, key, value, pages[p]);
      if ok {
        ghost var e := Entry(key, value);
        ghost var entries := pages[p].entries;
        ChainStep(View(), hash, numBuckets, i, k);
        AppendOk(entries, hash, numBuckets, i, e);
        PageStep(View(), hash, numBuckets, i, k, entries + [e], multiset{}, multiset{e});
        UnpinDirty(p, frame, pages[p].(entries := entries + [e]));
        live := live - multiset{} + multiset{e};
      }
    }

    /** Adds the pair to the multimap.  No page accepts a key of more than 8144 bytes: then the walk links one
        overflow page after another until the page ids run out. */
    method Insert(key: Key, value: RowId) returns (ok: bool)
      requires Valid()
      modifies this
      ensures Valid() && live == old(live) + if ok then multiset{Entry(key, value)} else multiset{}
      ensures key == [] || value == INVALID_ROW_ID || numBuckets == 0 || |key| > 8144 ==> !ok
      ensures !ok ==> key == [] || value == INVALID_ROW_ID || numBuckets == 0 || Exhausted()
    {
      hide ChainOk, Flat, Counted, Apart, BucketOk, Accepts, Used, BucketAt, OnDisk, Inv;
      if key == [] || value == INVALID_ROW_ID {
        return false;
      }
      var i := IndexOf(hash, numBuckets, key);
      var page := GetBucketPageId(i);
      if page == INVALID_PAGE_ID {
        return false;
      }
      ghost var k := 0;
      var inserted := InsertIntoPage(page, key, value, i, k);
      FitsSomePage(key);
      while !inserted
        invariant Valid() && i in chains && k < |chains[i]| && page == chains[i][k] && page in pages
        invariant live == old(live) + if inserted then multiset{Entry(key, value)} else multiset{}
        invariant |key| > 8144 ==> !inserted
        decreases 0x1_0000_0000 - nextId, |chains[i]| - k
      {
        page := Advance(page, i, k);
        if page == INVALID_PAGE_ID {
          return false;
        }
        k := k + 1;
        inserted := InsertIntoPage(page, key, value, i, k);
      }
      return true;
    }

    /** The page after `page`; a new overflow page is linked if there is none. */
    method Advance(page: PageId, ghost i: nat, ghost k: nat) returns (next: PageId)
      requires Valid() && i in chains && k < |chains[i]| && page == chains[i][k]
      modifies this
      ensures Valid() && live == old(live) && i in chains
      ensures next == INVALID_PAGE_ID ==> Exhausted()
      ensures next != INVALID_PAGE_ID ==> k + 1 < |chains[i]| && next == chains[i][k + 1] && next in pages
      ensures next != INVALID_PAGE_ID ==>
                (chains == old(chains) && nextId == old(nextId)) ||
                (chains[i] == old(chains)[i] + [next] && pages[next].entries == [] && !old(Exhausted()) && nextId == old(nextId) + 1)
    {
      hide ChainOk, Flat, Counted, Apart, BucketOk, BucketAt, OnDisk, HashBucketPages.Reads;
      ChainStep(View(), hash, numBuckets, i, k);
      next := NextPage(page);
      if next == INVALID_PAGE_ID {
        ghost var s := View();
        next := NewPageId();
        if next == INVALID_PAGE_ID {
          return;
        }
        GrowStep(s, hash, numBuckets, i, next);
        NewPage(next);
        var frame := FetchPage(page);
        HashBucketPages.SetNextBucketPageId(frame, next, pages[page]);
        UnpinDirty(page, frame, pages[page].(next := next));
        chains := chains[i := chains[i] + [next]];
      } else {
        ChainStep(View(), hash, numBuckets, i, k + 1);
      }
    }

    /** Any one value of the key; nothing only if the multimap has none. */
    method Search(key: Key) returns (r: Option<RowId>)
      requires Valid()
      modifies this
      ensures Valid() && live == old(live)
      ensures r.Some? ==> Entry(key, r.value) in live
      ensures r.None? ==> forall v: RowId :: Entry(key, v) !in live
    {
      hide ChainOk, Counted, Apart, BucketOk, Used, BucketAt, Inv, FirstMatch, Flat, ValuesOf, HasKey, OnDisk, HashBucketPages.Reads;
      r := None;
      var i := IndexOf(hash, numBuckets, key);
      if key == [] {
        forall v: RowId ensures live[Entry(key, v)] == 0 {
          NoEmptyKey(View(), hash, numBuckets, v);
        }
        return;
      }
      var page := GetBucketPageId(i);
      if page == INVALID_PAGE_ID {
        forall v: RowId ensures live[Entry(key, v)] == 0 {
          LiveIsStored(View(), hash, numBuckets, key, v);
        }
        return;
      }
      ghost var chain := chains[i];
      ghost var k := 0;
      ChainStep(View(), hash, numBuckets, i, k);
      FlatTake(pages, chain, 0, key);
      while true
        invariant Valid() && i in chains && chains[i] == chain && k < |chain| && page == chain[k] && page in pages && live == old(live)
        invariant ValuesOf(Flat(pages, chain[..k]), key) == []
        decreases |chain| - k
      {
        ChainStep(View(), hash, numBuckets, i, k);
        FlatTake(pages, chain, k, key);
        ghost var entries := pages[page].entries;
        HasKeyValues(entries, key);
        var frame := FetchPage(page);
        r := HashBucketPages.Search(frame, key, pages[page]);
        if r.Some? {
          FirstMatchOfKey(entries, key);
          FlatHas(pages, chain, k, Entry(key, r.value));
          LiveHas(View(), hash, numBuckets, Entry(key, r.value));
          return;
        }
        var next := NextPage(page);
        if next == INVALID_PAGE_ID {
          assert chain[..k + 1] == chain;
          forall v: RowId ensures live[Entry(key, v)] == 0 {
            LiveIsStored(View(), hash, numBuckets, key, v);
          }
          return;
        }
        ChainStep(View(), hash, numBuckets, i, k + 1);
        page, k := next, k + 1;
      }
    }

    /** Exactly the values of the key, each as often as it was inserted and not removed. */
    method SearchAll(key: Key) returns (found: bool, values: seq<RowId>)
      requires Valid()
      modifies this
      ensures Valid() && live == old(live)
      ensures forall v: RowId :: multiset(values)[v] == live[Entry(key, v)]
      ensures found <==> values != []
    {
      hide ChainOk, Counted, Apart, BucketOk, Used, BucketAt, Inv, Flat, ValuesOf, HasKey, OnDisk, HashBucketPages.Reads;
      found, values := false, [];
      var i := IndexOf(hash, numBuckets, key);
      forall v: RowId ensures key == [] ==> live[Entry(key, v)] == 0 {
        if key == [] { NoEmptyKey(View(), hash, numBuckets, v); }
      }
      if key == [] {
        return;
      }
      var page := GetBucketPageId(i);
      if page == INVALID_PAGE_ID {
        forall v: RowId ensures live[Entry(key, v)] == 0 {
          LiveIsStored(View(), hash, numBuckets, key, v);
        }
        return;
      }
      ghost var chain := chains[i];
      ghost var k := 0;
      ChainStep(View(), hash, numBuckets, i, k);
      var frame := FetchPage(page);
      found, values := HashBucketPages.SearchAll(frame, key, [], pages[page]);
      FlatTake(pages, chain, 0, key);
      HasKeyValues(pages[page].entries, key);
      var next := NextPage(page);
      while next != INVALID_PAGE_ID
        invariant page in pages && next == pages[page].next
        invariant Valid() && i in chains && chains[i] == chain && k < |chain| && page == chain[k] && page in pages && live == old(live)
        invariant values == ValuesOf(Flat(pages, chain[..k + 1]), key) && (found <==> values != [])
        decreases |chain| - k
      {
        ChainStep(View(), hash, numBuckets, i, k);
        ChainStep(View(), hash, numBuckets, i, k + 1);
        FlatTake(pages, chain, k + 1, key);
        page, k := next, k + 1;
        HasKeyValues(pages[page].entries, key);
        frame := FetchPage(page);
        var here: bool;
        here, values := HashBucketPages.SearchAll(frame, key, values, pages[page]);
        if here {
          found := true;
        }
        next := NextPage(page);
      }
      ChainStep(View(), hash, numBuckets, i, k);
      assert chain[..k + 1] == chain;
      forall v: RowId ensures multiset(values)[v] == live[Entry(key, v)] {
        LiveIsStored(View(), hash, numBuckets, key, v);
      }
    }

    /** Takes the first match off page `p`, the k-th of bucket `i`. */
    method RemoveFromPage(p: PageId, key: Key, value: RowId, ghost i: nat, ghost k: nat) returns (ok: bool, ghost e: Entry)
      requires Valid() && i in chains && k < |chains[i]| && p == chains[i][k] && p in pages
      requires key != [] && IndexOf(hash, numBuckets, key) == i
      modifies this`disk, this`pages, this`live
      ensures Valid() && (ok <==> FirstMatch(old(pages)[p].entries, key, value) < |old(pages)[p].entries|)
      ensures ok ==> Matches(e, key, value) && e in old(live) && live == old(live) - multiset{e}
      ensures !ok ==> pages == old(pages) && live == old(live)
    {
      hide ChainOk, Flat, IndexOf, Counted, Apart, BucketOk, BucketAt, OnDisk, HashBucketPages.Reads, Inv, Removed;
      ghost var entries := pages[p].entries;
      ghost var j := FirstMatch(entries, key, value);
      e := Entry(key, value);
      var frame := FetchPage(p);
      ok := HashBucketPages.Remove(frame, key, value, pages[p]);
      if ok {
        e := entries[j];
        ChainStep(View(), hash, numBuckets, i, k);
        RemoveOk(entries, hash, numBuckets, i, j);
        FlatHas(pages, chains[i], k, e);
        LiveHas(View(), hash, numBuckets, e);
        PageStep(View(), hash, numBuckets, i, k, Removed(entries, j), multiset{e}, multiset{});
        UnpinDirty(p, frame, pages[p].(entries := Removed(entries, j)));
        live := live - multiset{e} + multiset{};
      }
    }

    /** Takes exactly one matching pair out of the multimap, if there is one; row id 0 matches any. */
    method Remove(key: Key, value: RowId) returns (ok: bool, ghost e: Entry)
      requires Valid()
      modifies this
      ensures Valid() && (ok <==> exists m :: m in old(live) && Matches(m, key, value))
      ensures ok ==> Matches(e, key, value) && e in old(live) && live == old(live) - multiset{e}
      ensures !ok ==> live == old(live)
    {
      hide ChainOk, Counted, Apart, BucketOk, Used, BucketAt, Inv, FirstMatch, Flat, OnDisk;
      ok, e := false, Entry(key, value);
      var i := IndexOf(hash, numBuckets, key);
      if key == [] {
        forall m: Entry | m.key == [] ensures m !in live {
          NoEmptyKey(View(), hash, numBuckets, m.value);
        }
        return;
      }
      var page := GetBucketPageId(i);
      if page == INVALID_PAGE_ID {
        forall m: Entry | m.key == key ensures m !in live {
          LiveIsStored(View(), hash, numBuckets, key, m.value);
        }
        return;
      }
      ghost var chain := chains[i];
      ghost var k := 0;
      FlatNone(pages, chain[..0]);
      while true
        invariant Valid() && i in chains && chains[i] == chain && k < |chain| && page == chain[k] && page in pages && live == old(live)
        invariant NoneMatch(Flat(pages, chain[..k]), key, value)
        decreases |chain| - k
      {
        ChainStep(View(), hash, numBuckets, i, k);
        FlatTake(pages, chain, k, key);
        ghost var entries := pages[page].entries;
        ok, e := RemoveFromPage(page, key, value, i, k);
        if ok {
          return;
        }
        NoneMatchFirst(entries, key, value);
        var next := NextPage(page);
        if next == INVALID_PAGE_ID {
          assert chain[..k + 1] == chain;
          NoneLive(View(), hash, numBuckets, key, value);
          return;
        }
        ChainStep(View(), hash, numBuckets, i, k + 1);
        page, k := next, k + 1;
      }
    }
  }

  /** The k-th page of a bucket's chain, and where its link leads. */
  lemma ChainStep(s: State, hash: Hash, n: nat, i: nat, k: nat)
    requires Inv(s, hash, n) && i in s.chains && k < |s.chains[i]|
    ensures var chain := s.chains[i];
            chain[k] in s.pages && BucketOk(s.pages[chain[k]].entries, hash, n, i) && chain[k] != INVALID_PAGE_ID &&
            s.pages[chain[k]].next == (if k + 1 < |chain| then chain[k + 1] else INVALID_PAGE_ID) &&
            (s.pages[chain[k]].next != INVALID_PAGE_ID <==> k + 1 < |chain|)
  {
    hide BucketOk;
    assert BucketAt(s, hash, n, i);
    assert PageOk(s.pages, s.chains[i], hash, n, i, k);
    if k + 1 < |s.chains[i]| { assert PageOk(s.pages, s.chains[i], hash, n, i, k + 1); }
  }

  lemma FlatTake(pages: Pages, chain: Chain, k: nat, key: Key)
    requires k < |chain| && chain[k] in pages
    ensures Flat(pages, chain[..k + 1]) == Flat(pages, chain[..k]) + pages[chain[k]].entries
    ensures ValuesOf(Flat(pages, chain[..k + 1]), key) == ValuesOf(Flat(pages, chain[..k]), key) + ValuesOf(pages[chain[k]].entries, key)
    ensures k == 0 ==> ValuesOf(Flat(pages, chain[..k]), key) == []
  {
    assert chain[..k + 1] == chain[..k] + [chain[k]];
    FlatAppend(pages, chain[..k], [chain[k]]);
    assert [chain[k]][1..] == [];
    assert Flat(pages, [chain[k]]) == pages[chain[k]].entries;
    ValuesOfAppend(Flat(pages, chain[..k]), pages[chain[k]].entries, key);
  }

  lemma {:induction false} HasKeyValues(entries: seq<Entry>, key: Key)
    ensures HasKey(entries, key) <==> ValuesOf(entries, key) != []
  {
    if entries != [] {
      HasKeyValues(entries[1..], key);
      if HasKey(entries, key) && entries[0].key != key {
        var j :| 0 <= j < |entries| && entries[j].key == key;
        assert entries[1..][j - 1].key == key;
      }
      if HasKey(entries[1..], key) {
        var j :| 0 <= j < |entries[1..]| && entries[1..][j].key == key;
        assert entries[j + 1].key == key;
      }
    }
  }

  lemma FirstMatchOfKey(entries: seq<Entry>, key: Key)
    requires HasKey(entries, key)
    ensures var j := FirstMatch(entries, key, INVALID_ROW_ID);
            j < |entries| && entries[j] == Entry(key, entries[j].value)
  {
    var j :| 0 <= j < |entries| && entries[j].key == key;
    assert Matches(entries[j], key, INVALID_ROW_ID);
  }

  lemma FlatHas(pages: Pages, chain: Chain, k: nat, e: Entry)
    requires k < |chain| && chain[k] in pages && e in pages[chain[k]].entries
    ensures e in multiset(Flat(pages, chain))
  {
    FlatAt(pages, chain, k);
  }

  lemma LiveHas(s: State, hash: Hash, n: nat, e: Entry)
    requires Inv(s, hash, n) && IndexOf(hash, n, e.key) in s.chains
    requires e in multiset(Flat(s.pages, s.chains[IndexOf(hash, n, e.key)]))
    ensures e in s.live
  {
    assert Counted(s, hash, n, e);
  }

  ghost predicate NoneMatch(entries: seq<Entry>, key: Key, value: RowId) {
    forall e :: e in entries ==> !Matches(e, key, value)
  }

  lemma FlatNone(pages: Pages, chain: Chain)
    requires chain == []
    ensures Flat(pages, chain) == []
  {
  }

  lemma NoneMatchFirst(entries: seq<Entry>, key: Key, value: RowId)
    requires FirstMatch(entries, key, value) == |entries|
    ensures NoneMatch(entries, key, value)
  {
  }

  lemma NoneLive(s: State, hash: Hash, n: nat, key: Key, value: RowId)
    requires Inv(s, hash, n) && IndexOf(hash, n, key) in s.chains
    requires NoneMatch(Flat(s.pages, s.chains[IndexOf(hash, n, key)]), key, value)
    ensures forall m :: m in s.live ==> !Matches(m, key, value)
  {
    forall m | m in s.live ensures !Matches(m, key, value) {
      assert Counted(s, hash, n, m);
    }
  }

  lemma NoEmptyKey(s: State, hash: Hash, n: nat, v: RowId)
    requires Inv(s, hash, n)
    ensures s.live[Entry([], v)] == 0
  {
    var i := IndexOf(hash, n, []);
    assert Counted(s, hash, n, Entry([], v));
    if i in s.chains {
      assert BucketAt(s, hash, n, i);
      FlatOk(s.pages, s.chains[i], hash, n, i, Entry([], v));
    }
  }

  /** Every entry of a chain sits on one of its pages. */
  lemma {:induction false} FlatOk(pages: Pages, chain: Chain, hash: Hash, n: nat, i: nat, e: Entry)
    requires forall k {:trigger PageOk(pages, chain, hash, n, i, k)} :: 0 <= k < |chain| ==> PageOk(pages, chain, hash, n, i, k)
    ensures e in Flat(pages, chain) ==> EntryOk(e, hash, n, i)
  {
    if chain != [] {
      assert PageOk(pages, chain, hash, n, i, 0);
      forall k | 0 <= k < |chain[1..]| ensures PageOk(pages, chain[1..], hash, n, i, k) {
        assert PageOk(pages, chain, hash, n, i, k + 1);
      }
      FlatOk(pages, chain[1..], hash, n, i, e);
    }
  }

  // ---------- The number of buckets ----------

  predicate PowerOfTwo(n: nat) {
    n <= 1 || (n % 2 == 0 && PowerOfTwo(n / 2))
  }

  function Doubled(k: nat): (r: nat)
    ensures r >= 1 && PowerOfTwo(r)
  {
    if k == 0 then 1 else 2 * Doubled(k - 1)
  }

  lemma {:induction false} PowersApart(a: nat, b: nat)
    requires PowerOfTwo(a) && PowerOfTwo(b) && 1 <= a < b
    ensures 2 * a <= b
  {
    if a > 1 { PowersApart(a / 2, b / 2); }
  }

  lemma DoublePower(n: nat)
    requires PowerOfTwo(n) && n >= 1
    ensures PowerOfTwo(2 * n)
  {
    assert 2 * n / 2 == n;
  }

  lemma Doubled31()
    ensures Doubled(31) == 0x8000_0000
  {
    hide PowerOfTwo;
    assert Doubled(5) == 32;
    assert Doubled(10) == 1024;
    assert Doubled(15) == 0x8000;
    assert Doubled(20) == 0x10_0000;
    assert Doubled(25) == 0x200_0000;
    assert Doubled(30) == 0x4000_0000;
  }

  /** A 32-bit number shifted left by one. */
  function ShiftLeft(x: nat): nat
    requires x < 0x1_0000_0000
  {
    if x < 0x8000_0000 then 2 * x else 2 * x - 0x1_0000_0000
  }

  /** Rounding up to a power of two by repeated doubling in 32 bits. */
  method RoundUp(n: nat) returns (r: nat)
    requires n <= 0x8000_0000
    ensures PowerOfTwo(r) && n <= r <= 0x8000_0000 && (n > 0 ==> r < 2 * n)
  {
    if PowerOfTwo(n) {
      return n;
    }
    Doubled31();
    hide Doubled, PowerOfTwo;
    r := 1;
    assert PowerOfTwo(1) by { DoubledIsPower(0); }
    while r < n
      invariant 1 <= r < 2 * n && PowerOfTwo(r) && r <= 0x8000_0000
      decreases n - r
    {
      DoubledIsPower(31);
      PowersApart(r, Doubled(31));
      DoublePower(r);
      r := ShiftLeft(r);
    }
  }

  lemma DoubledIsPower(k: nat)
    ensures PowerOfTwo(Doubled(k)) && Doubled(0) == 1
  {
  }

  function Shifted(k: nat): (r: nat)
    ensures r < 0x1_0000_0000
  {
    if k == 0 then 1 else ShiftLeft(Shifted(k - 1))
  }

  /** For more than 2^31 buckets no shift ever reaches the wanted number. */
  lemma ShiftingNeverReaches(n: nat, k: nat)
    requires n > 0x8000_0000
    ensures Shifted(k) < n
  {
    ShiftedIs(k);
    Doubled31();
    if k <= 31 { DoublingGrows(k, 31); }
  }

  lemma {:induction false} ShiftedIs(k: nat)
    ensures Shifted(k) == if k <= 31 then Doubled(k) else 0
  {
    hide PowerOfTwo;
    if k > 0 {
      ShiftedIs(k - 1);
      Doubled31();
      if k <= 31 { DoublingGrows(k, 31); }
    }
  }

  lemma {:induction false} DoublingGrows(j: nat, k: nat)
    requires j <= k
    ensures Doubled(j) <= Doubled(k)
  {
    if j < k { DoublingGrows(j, k - 1); }
  }

  lemma MoreIds(s: State, s': State, hash: Hash, n: nat)
    requires Inv(s, hash, n) && s' == s.(nextId := s'.nextId) && s.nextId <= s'.nextId
    ensures Inv(s', hash, n)
  {
    hide ChainOk, Flat, IndexOf;
    forall i | i in s'.chains ensures BucketAt(s', hash, n, i) {
      assert BucketAt(s, hash, n, i);
    }
    forall i, j | 0 <= i && 0 <= j ensures Apart(s', i, j) {
      assert Apart(s, i, j);
    }
    forall e ensures Counted(s', hash, n, e) {
      assert Counted(s, hash, n, e);
    }
  }
}
