/**
 * A hash bucket page seen as a list of entries and a link: what the byte-level operations of
 * `HashBucketPages` are proved to do, and what the chains of `HashIndexes` are made of.
 */
module HashBuckets {
  import opened Numbers

  type Key = seq<Byte>
  type RowId = x: int | 0 <= x < 0x1_0000_0000_0000_0000
  type PageId = x: int | 0 <= x < 0x1_0000_0000

  const INVALID_PAGE_ID: PageId := 0
  const INVALID_ROW_ID: RowId := 0
  const PAGE_SIZE := 8192
  const HEADER_SIZE := 32
  const MAX_ENTRY_SPACE := PAGE_SIZE - HEADER_SIZE

  datatype Entry = Entry(key: Key, value: RowId)
  datatype Bucket = Bucket(entries: seq<Entry>, next: PageId)

  /** Bytes an entry takes: a length, the key, a length, a row id. */
  function EntrySize(keySize: nat): nat {
    4 + keySize + 4 + 8
  }

  function Used(entries: seq<Entry>): nat {
    if entries == [] then 0 else EntrySize(|entries[0].key|) + Used(entries[1..])
  }

  lemma {:induction false} UsedAppend(a: seq<Entry>, b: seq<Entry>)
    ensures Used(a + b) == Used(a) + Used(b)
  {
    if a == [] {
      assert a + b == b;
    } else {
      assert (a + b)[1..] == a[1..] + b;
      UsedAppend(a[1..], b);
    }
  }

  predicate HasKey(entries: seq<Entry>, key: Key) {
    exists i :: 0 <= i < |entries| && entries[i].key == key
  }

  /** Inserting succeeds exactly for a key that is not empty, not yet on the page, and fits. */
  predicate Accepts(entries: seq<Entry>, key: Key) {
    key != [] && !HasKey(entries, key) && Used(entries) + EntrySize(|key|) <= MAX_ENTRY_SPACE
  }

  /** Row id 0 asks for any value. */
  predicate Matches(e: Entry, key: Key, value: RowId) {
    e.key == key && (value == INVALID_ROW_ID || e.value == value)
  }

  /** The first matching entry, or the number of entries. */
  function FirstMatch(entries: seq<Entry>, key: Key, value: RowId): (i: nat)
    ensures i <= |entries| && (i < |entries| ==> Matches(entries[i], key, value))
    ensures forall j :: 0 <= j < i ==> !Matches(entries[j], key, value)
  {
    if entries == [] then 0
    else if Matches(entries[0], key, value) then 0
    else
      var i := FirstMatch(entries[1..], key, value);
      assert forall j :: 0 < j < |entries| ==> entries[j] == entries[1..][j - 1];
      i + 1
  }

  function Removed(entries: seq<Entry>, i: nat): seq<Entry>
    requires i < |entries|
  {
    entries[..i] + entries[i + 1..]
  }

  function ValuesOf(entries: seq<Entry>, key: Key): seq<RowId> {
    if entries == [] then []
    else (if entries[0].key == key then [entries[0].value] else []) + ValuesOf(entries[1..], key)
  }

  lemma {:induction false} ValuesOfAppend(a: seq<Entry>, b: seq<Entry>, key: Key)
    ensures ValuesOf(a + b, key) == ValuesOf(a, key) + ValuesOf(b, key)
  {
    if a == [] {
      assert a + b == b;
    } else {
      assert (a + b)[1..] == a[1..] + b && (a + b)[0] == a[0];
      ValuesOfAppend(a[1..], b, key);
      var head := if a[0].key == key then [a[0].value] else [];
      assert ValuesOf(a + b, key) == head + ValuesOf(a[1..] + b, key);
      assert head + (ValuesOf(a[1..], key) + ValuesOf(b, key)) == (head + ValuesOf(a[1..], key)) + ValuesOf(b, key);
    }
  }

  /** `ValuesOf` collects each value as often as the list pairs it with the key. */
  lemma {:induction false} ValuesOfCounts(entries: seq<Entry>, key: Key, v: RowId)
    ensures multiset(ValuesOf(entries, key))[v] == multiset(entries)[Entry(key, v)]
  {
    if entries != [] {
      assert entries == [entries[0]] + entries[1..];
      ValuesOfCounts(entries[1..], key, v);
    }
  }

  /** Some page has room for the key, if and only if the key has 1 to 8144 bytes; an empty page will
      do.  An insert of a longer key asks for one overflow page after another. */
  lemma FitsSomePage(key: Key)
    ensures (exists entries :: Accepts(entries, key)) <==> 1 <= |key| <= 8144
    ensures 1 <= |key| <= 8144 ==> Accepts([], key)
  {
    if 1 <= |key| <= 8144 {
      assert Accepts([], key);
    }
  }
}
