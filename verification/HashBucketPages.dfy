/**
 * The bytes of a hash bucket page.  `Parse` reads a page as the entries it lists; every operation
 * works on the byte array in place and is described by what `Parse` gives before and after.
 */
module HashBucketPages {
  import opened Options
  import opened Numbers
  import opened HashBuckets
  import opened Powers256
  import opened Sequences

  // ---------- Little-endian numbers ----------

  function Bytes(n: nat, w: nat): (s: seq<Byte>)
    requires n < Power256(w)
    ensures |s| == w && LittleEndian(s) == n
  {
    if w == 0 then [] else [n % 256] + Bytes(n / 256, w - 1)
  }

  function U32(s: seq<Byte>, at: nat): (n: nat)
    requires at + 4 <= |s|
    ensures n < 0x1_0000_0000
  {
    Powers();
    LittleEndian(s[at..at + 4])
  }

  function U64(s: seq<Byte>, at: nat): (n: RowId)
    requires at + 8 <= |s|
  {
    Powers();
    LittleEndian(s[at..at + 8])
  }

  function U32Bytes(n: nat): (s: seq<Byte>)
    requires n < 0x1_0000_0000
    ensures |s| == 4 && LittleEndian(s) == n
  {
    Powers();
    Bytes(n, 4)
  }

  function U64Bytes(n: RowId): (s: seq<Byte>)
    ensures |s| == 8 && LittleEndian(s) == n
  {
    Powers();
    Bytes(n, 8)
  }

  // ---------- Reading entries ----------

  /** Where the entry at `at` ends, if it ends on the page. */
  predicate EntryFits(s: seq<Byte>, at: nat) {
    at + 4 <= |s| && at + EntrySize(U32(s, at)) <= |s|
  }

  function EntryEnd(s: seq<Byte>, at: nat): nat
    requires EntryFits(s, at)
  {
    at + EntrySize(U32(s, at))
  }

  function EntryAt(s: seq<Byte>, at: nat): Entry
    requires EntryFits(s, at)
  {
    var k := U32(s, at);
    Entry(s[at + 4..at + 4 + k], U64(s, at + 4 + k + 4))
  }

  function ParseFrom(s: seq<Byte>, at: nat, n: nat): Option<seq<Entry>>
    decreases n
  {
    if n == 0 then Some([])
    else if !EntryFits(s, at) then None
    else
      match ParseFrom(s, EntryEnd(s, at), n - 1)
      case None => None
      case Some(rest) => Some([EntryAt(s, at)] + rest)
  }

  function NumEntries(s: seq<Byte>): nat
    requires |s| == PAGE_SIZE
  {
    U32(s, 0)
  }

  function Parse(s: seq<Byte>): Option<Bucket>
    requires |s| == PAGE_SIZE
  {
    match ParseFrom(s, HEADER_SIZE, NumEntries(s))
    case None => None
    case Some(entries) => Some(Bucket(entries, U32(s, 4)))
  }

  /** Parsed entries lie back to back: entry `i` starts where the first `i` entries end. */
  lemma {:induction false} ParsedAt(s: seq<Byte>, at: nat, n: nat, i: nat)
    requires ParseFrom(s, at, n).Some? && i < n
    ensures var es := ParseFrom(s, at, n).value;
            |es| == n && var o := at + Used(es[..i]);
            EntryFits(s, o) && EntryAt(s, o) == es[i] &&
            EntryEnd(s, o) == at + Used(es[..i + 1]) == o + EntrySize(|es[i].key|) <= |s|
    decreases n
  {
    var es := ParseFrom(s, at, n).value;
    var rest := ParseFrom(s, EntryEnd(s, at), n - 1).value;
    assert es[1..] == rest;
    ParsedLength(s, at, n);
    hide LittleEndian;
    if i == 0 {
      assert es[..0] == [] && es[..1][1..] == [];
    } else {
      ParsedAt(s, EntryEnd(s, at), n - 1, i - 1);
      assert es[..i][1..] == rest[..i - 1] && es[..i + 1][1..] == rest[..i];
    }
  }

  lemma {:induction false} ParsedLength(s: seq<Byte>, at: nat, n: nat)
    requires ParseFrom(s, at, n).Some?
    ensures |ParseFrom(s, at, n).value| == n
    decreases n
  {
    if n > 0 { ParsedLength(s, EntryEnd(s, at), n - 1); }
  }

  /** Entries that are parsed all lie on the page. */
  lemma {:induction false} ParsedFits(s: seq<Byte>, at: nat, n: nat)
    requires ParseFrom(s, at, n).Some? && at <= |s|
    ensures at + Used(ParseFrom(s, at, n).value) <= |s|
    decreases n
  {
    if n > 0 {
      var rest := ParseFrom(s, EntryEnd(s, at), n - 1).value;
      ParsedFits(s, EntryEnd(s, at), n - 1);
      assert ([EntryAt(s, at)] + rest)[1..] == rest;
    }
  }

  /** Parsing looks only at the bytes of the entries, wherever they are. */
  lemma {:induction false} ParseMoved(s: seq<Byte>, at: nat, s': seq<Byte>, at': nat, n: nat)
    requires ParseFrom(s, at, n).Some? && at <= |s|
    requires var len := Used(ParseFrom(s, at, n).value);
             at' + len <= |s'| && at + len <= |s| && s'[at'..at' + len] == s[at..at + len]
    ensures ParseFrom(s', at', n) == ParseFrom(s, at, n)
    decreases n
  {
    hide LittleEndian;
    if n > 0 {
      var end := EntryEnd(s, at);
      var rest := ParseFrom(s, end, n - 1).value;
      var len := Used(ParseFrom(s, at, n).value);
      assert ([EntryAt(s, at)] + rest)[1..] == rest;
      var size := end - at;
      assert len == size + Used(rest);
      SameEntry(s, at, s', at', len);
      SameWindow(s, at, s', at', len, size, len);
      ParsedFits(s, end, n - 1);
      ParseMoved(s, end, s', at' + size, n - 1);
    }
  }

  lemma SameEntry(s: seq<Byte>, at: nat, s': seq<Byte>, at': nat, len: nat)
    requires EntryFits(s, at) && at + len <= |s| && at' + len <= |s'| && EntryEnd(s, at) <= at + len
    requires s'[at'..at' + len] == s[at..at + len]
    ensures EntryFits(s', at') && EntryEnd(s', at') - at' == EntryEnd(s, at) - at && EntryAt(s', at') == EntryAt(s, at)
  {
    var k := U32(s, at);
    SameWindow(s, at, s', at', len, 0, 4);
    SameWindow(s, at, s', at', len, 4, 4 + k);
    SameWindow(s, at, s', at', len, 8 + k, 16 + k);
  }

  lemma SameWindow(s: seq<Byte>, at: nat, s': seq<Byte>, at': nat, len: nat, i: nat, j: nat)
    requires at + len <= |s| && at' + len <= |s'| && s'[at'..at' + len] == s[at..at + len] && i <= j <= len
    ensures s'[at' + i..at' + j] == s[at + i..at + j]
  {
    var a, b := s'[at' + i..at' + j], s[at + i..at + j];
    forall x | 0 <= x < j - i ensures a[x] == b[x] {
      assert s'[at'..at' + len][i + x] == s[at..at + len][i + x];
    }
  }

  /** Two runs of entries parse as one. */
  lemma {:induction false} ParseJoin(s: seq<Byte>, at: nat, n: nat, m: nat)
    requires at <= |s| && ParseFrom(s, at, n).Some?
    requires ParseFrom(s, at + Used(ParseFrom(s, at, n).value), m).Some?
    ensures ParseFrom(s, at, n + m) ==
            Some(ParseFrom(s, at, n).value + ParseFrom(s, at + Used(ParseFrom(s, at, n).value), m).value)
    decreases n
  {
    var es := ParseFrom(s, at, n).value;
    var more := ParseFrom(s, at + Used(es), m).value;
    if n == 0 {
      assert [] + more == more;
    } else {
      var end := EntryEnd(s, at);
      var rest := ParseFrom(s, end, n - 1).value;
      assert es[1..] == rest;
      assert end + Used(rest) == at + Used(es);
      ParseJoin(s, end, n - 1, m);
      assert [EntryAt(s, at)] + (rest + more) == es + more;
    }
  }

  lemma {:induction false} ParseSplit(s: seq<Byte>, at: nat, n: nat, m: nat)
    requires at <= |s| && ParseFrom(s, at, n + m).Some?
    ensures ParseFrom(s, at, n).Some? && var es := ParseFrom(s, at, n + m).value;
            |es| == n + m && ParseFrom(s, at, n).value == es[..n] && at + Used(es[..n]) <= |s| &&
            ParseFrom(s, at + Used(es[..n]), m) == Some(es[n..])
    decreases n
  {
    ParsedLength(s, at, n + m);
    var es := ParseFrom(s, at, n + m).value;
    if n > 0 {
      var end := EntryEnd(s, at);
      var rest := ParseFrom(s, end, n + m - 1).value;
      assert es[1..] == rest;
      ParseSplit(s, end, n - 1, m);
      assert es[..n] == [EntryAt(s, at)] + rest[..n - 1] && es[..n][1..] == rest[..n - 1];
      assert es[n..] == rest[n - 1..];
    } else {
      assert es[..0] == [] && es[0..] == es;
    }
  }

  // ---------- Writing bytes ----------

  function Write(s: seq<Byte>, at: nat, bytes: seq<Byte>): (r: seq<Byte>)
    requires at + |bytes| <= |s|
    ensures |r| == |s|
  {
    s[..at] + bytes + s[at + |bytes|..]
  }

  lemma WrittenAt(s: seq<Byte>, at: nat, bytes: seq<Byte>)
    requires at + |bytes| <= |s|
    ensures Write(s, at, bytes)[at..at + |bytes|] == bytes
  {
  }

  lemma WrittenElsewhere(s: seq<Byte>, at: nat, bytes: seq<Byte>, i: nat, j: nat)
    requires at + |bytes| <= |s| && i <= j <= |s| && (j <= at || at + |bytes| <= i)
    ensures Write(s, at, bytes)[i..j] == s[i..j]
  {
  }

  lemma WrittenTwice(s: seq<Byte>, at: nat, a: seq<Byte>, b: seq<Byte>)
    requires at + |a| + |b| <= |s|
    ensures Write(Write(s, at, a), at + |a|, b) == Write(s, at, a + b)
  {
  }

  function EntryBytes(e: Entry): (s: seq<Byte>)
    requires |e.key| < 0x1_0000_0000
    ensures |s| == EntrySize(|e.key|)
  {
    U32Bytes(|e.key|) + e.key + U32Bytes(8) + U64Bytes(e.value)
  }

  /** What is written for an entry reads back as that entry. */
  lemma EntryRoundTrip(s: seq<Byte>, at: nat, e: Entry)
    requires |e.key| < 0x1_0000_0000 && at + EntrySize(|e.key|) <= |s|
    requires s[at..at + EntrySize(|e.key|)] == EntryBytes(e)
    ensures EntryFits(s, at) && EntryAt(s, at) == e && EntryEnd(s, at) == at + EntrySize(|e.key|)
  {
    hide LittleEndian, U32Bytes, U64Bytes;
    var k, w := |e.key|, EntryBytes(e);
    SameWindow(w, 0, s, at, |w|, 0, 4);
    SameWindow(w, 0, s, at, |w|, 4, 4 + k);
    SameWindow(w, 0, s, at, |w|, 8 + k, 16 + k);
    Pieces(U32Bytes(k), e.key, U32Bytes(8), U64Bytes(e.value));
  }

  /** A page whose first bytes are as before, followed by the bytes of one more entry. */
  lemma AppendedParses(s: seq<Byte>, s': seq<Byte>, e: Entry)
    requires |s| == |s'| == PAGE_SIZE && Parse(s).Some? && |e.key| < 0x1_0000_0000
    requires var es := Parse(s).value.entries; var end := HEADER_SIZE + Used(es);
             end + EntrySize(|e.key|) <= PAGE_SIZE && U32(s', 0) == |es| + 1 && s'[4..end] == s[4..end] &&
             s'[end..end + EntrySize(|e.key|)] == EntryBytes(e)
    ensures Parse(s') == Some(Bucket(Parse(s).value.entries + [e], Parse(s).value.next))
  {
    hide LittleEndian, EntryFits;
    var b := Parse(s).value;
    var es, n := b.entries, NumEntries(s);
    var end := HEADER_SIZE + Used(es);
    ParsedLength(s, HEADER_SIZE, n);
    SameWindow(s, 4, s', 4, end - 4, 0, 4);
    SameWindow(s, 4, s', 4, end - 4, HEADER_SIZE - 4, end - 4);
    ParseMoved(s, HEADER_SIZE, s', HEADER_SIZE, n);
    EntryRoundTrip(s', end, e);
    assert ParseFrom(s', EntryEnd(s', end), 0) == Some([]);
    assert [e] + [] == [e];
    assert ParseFrom(s', end, 1) == Some([e]);
    ParseJoin(s', HEADER_SIZE, n, 1);
  }

  lemma {:induction false} UsedBounds(es: seq<Entry>)
    ensures Used(es) >= 16 * |es|
  {
    if es != [] { UsedBounds(es[1..]); }
  }

  /** Closing the gap of entry `i` leaves the other entries. */
  lemma RemovedParses(s: seq<Byte>, s': seq<Byte>, i: nat)
    requires |s| == |s'| == PAGE_SIZE && Parse(s).Some? && i < |Parse(s).value.entries|
    requires var es := Parse(s).value.entries;
             var start, end := HEADER_SIZE + Used(es[..i]), HEADER_SIZE + Used(es[..i + 1]);
             start <= end <= PAGE_SIZE && U32(s', 0) == |es| - 1 && s'[4..start] == s[4..start] &&
             s'[start..start + (PAGE_SIZE - end)] == s[end..PAGE_SIZE]
    ensures Parse(s') == Some(Bucket(Removed(Parse(s).value.entries, i), Parse(s).value.next))
  {
    hide ParseFrom, LittleEndian, Used, EntryFits;
    var es, n := Parse(s).value.entries, NumEntries(s);
    var start, end := HEADER_SIZE + Used(es[..i]), HEADER_SIZE + Used(es[..i + 1]);
    ParsedLength(s, HEADER_SIZE, n);
    SameWindow(s, 4, s', 4, start - 4, 0, 4);
    SameWindow(s, 4, s', 4, start - 4, HEADER_SIZE - 4, start - 4);
    ParseSplit(s, HEADER_SIZE, i, n - i);
    ParseMoved(s, HEADER_SIZE, s', HEADER_SIZE, i);
    ParseSplit(s, HEADER_SIZE, i + 1, n - i - 1);
    ParsedFits(s, end, n - i - 1);
    var tail := Used(es[i + 1..]);
    SameWindow(s, end, s', start, PAGE_SIZE - end, 0, tail);
    ParseMoved(s, end, s', start, n - i - 1);
    ParseJoin(s', HEADER_SIZE, i, n - i - 1);
  }

  // ---------- memcpy, memmove and memset ----------

  method MemCopy(a: array<Byte>, at: nat, bytes: seq<Byte>)
    requires at + |bytes| <= a.Length
    modifies a
    ensures a[..] == Write(old(a[..]), at, bytes)
  {
    forall i | 0 <= i < |bytes| {
      a[at + i] := bytes[i];
    }
    assert a[at..at + |bytes|] == bytes;
    assert a[..] == a[..at] + a[at..at + |bytes|] + a[at + |bytes|..];
  }

  method MemMove(a: array<Byte>, to: nat, from: nat, n: nat)
    requires to + n <= a.Length && from + n <= a.Length
    modifies a
    ensures a[..] == Write(old(a[..]), to, old(a[from..from + n]))
  {
    var bytes := a[from..from + n];
    MemCopy(a, to, bytes);
  }

  method MemClear(a: array<Byte>, at: nat, n: nat)
    requires at + n <= a.Length
    modifies a
    ensures a[..] == Write(old(a[..]), at, Zeros(n))
  {
    MemCopy(a, at, Zeros(n));
  }

  // ---------- The operations ----------

  ghost predicate Reads(a: array<Byte>, b: Bucket)
    reads a
  {
    a.Length == PAGE_SIZE && Parse(a[..]) == Some(b)
  }

  method Initialize(a: array<Byte>)
    requires a.Length == PAGE_SIZE
    modifies a
    ensures Reads(a, Bucket([], INVALID_PAGE_ID))
  {
    MemClear(a, 0, PAGE_SIZE);
    MemCopy(a, 0, U32Bytes(0));
    MemCopy(a, 4, U32Bytes(INVALID_PAGE_ID));
    assert a[..][0..4] == U32Bytes(0) && a[..][4..8] == U32Bytes(0);
  }

  method GetNextBucketPageId(a: array<Byte>, ghost b: Bucket) returns (next: PageId)
    requires Reads(a, b)
    ensures next == b.next
  {
    next := U32(a[..], 4);
  }

  method SetNextBucketPageId(a: array<Byte>, next: PageId, ghost b: Bucket)
    requires Reads(a, b)
    modifies a
    ensures Reads(a, b.(next := next))
  {
    ghost var s := a[..];
    MemCopy(a, 4, U32Bytes(next));
    RelinkedParses(s, a[..], next);
  }

  lemma RelinkedParses(s: seq<Byte>, s': seq<Byte>, next: PageId)
    requires |s| == |s'| == PAGE_SIZE && Parse(s).Some?
    requires s' == Write(s, 4, U32Bytes(next))
    ensures Parse(s') == Some(Parse(s).value.(next := next))
  {
    var es, n := Parse(s).value.entries, NumEntries(s);
    ParsedFits(s, HEADER_SIZE, n);
    WrittenElsewhere(s, 4, U32Bytes(next), 0, 4);
    WrittenAt(s, 4, U32Bytes(next));
    WrittenElsewhere(s, 4, U32Bytes(next), HEADER_SIZE, HEADER_SIZE + Used(es));
    ParseMoved(s, HEADER_SIZE, s', HEADER_SIZE, n);
  }

  /** Reads the entry at `offset`: its key, its value, and where it ends. */
  method ReadEntry(a: array<Byte>, offset: nat) returns (key: Key, value: RowId, end: nat)
    requires EntryFits(a[..], offset)
    ensures Entry(key, value) == EntryAt(a[..], offset) && end == EntryEnd(a[..], offset)
  {
    var keySize := U32(a[..], offset);
    key := a[offset + 4..offset + 4 + keySize];
    value := U64(a[..], offset + 4 + keySize + 4);
    end := offset + 4 + keySize + 4 + 8;
    assert key == a[..][offset + 4..offset + 4 + keySize];
  }

  /** The first value stored under the key. */
  method Search(a: array<Byte>, key: Key, ghost b: Bucket) returns (r: Option<RowId>)
    requires Reads(a, b)
    ensures r.Some? <==> key != [] && HasKey(b.entries, key)
    ensures r.Some? ==> r.value == b.entries[FirstMatch(b.entries, key, INVALID_ROW_ID)].value
  {
    hide ParseFrom, LittleEndian, EntryFits, EntryAt, EntryEnd, FirstMatch;
    r := None;
    if key == [] { return; }
    var n, offset := U32(a[..], 0), HEADER_SIZE;
    ghost var es := b.entries;
    ParsedLength(a[..], HEADER_SIZE, n);
    var i := 0;
    while i < n
      invariant i <= n == |es| && offset == HEADER_SIZE + Used(es[..i])
      invariant forall j :: 0 <= j < i ==> es[j].key != key
    {
      ParsedAt(a[..], HEADER_SIZE, n, i);
      var entryKey, entryValue, end := ReadEntry(a, offset);
      offset := end;
      if entryKey == key {
        FirstIs(es, key, INVALID_ROW_ID, i);
        return Some(entryValue);
      }
      i := i + 1;
    }
  }

  lemma FirstIs(es: seq<Entry>, key: Key, value: RowId, i: nat)
    requires i < |es| && Matches(es[i], key, value) && forall j :: 0 <= j < i ==> !Matches(es[j], key, value)
    ensures FirstMatch(es, key, value) == i
  {
  }

  /** All values stored under the key, in page order, after those collected so far. */
  method SearchAll(a: array<Byte>, key: Key, values: seq<RowId>, ghost b: Bucket) returns (found: bool, all: seq<RowId>)
    requires Reads(a, b)
    ensures all == values + if key == [] then [] else ValuesOf(b.entries, key)
    ensures found <==> key != [] && HasKey(b.entries, key)
  {
    hide ParseFrom, LittleEndian, EntryFits, EntryAt, EntryEnd;
    all, found := values, false;
    if key == [] { return; }
    var n, offset := U32(a[..], 0), HEADER_SIZE;
    ghost var es := b.entries;
    ParsedLength(a[..], HEADER_SIZE, n);
    var i := 0;
    while i < n
      invariant i <= n == |es| && offset == HEADER_SIZE + Used(es[..i])
      invariant all == values + ValuesOf(es[..i], key)
      invariant found <==> exists j :: 0 <= j < i && es[j].key == key
    {
      ParsedAt(a[..], HEADER_SIZE, n, i);
      var entryKey, entryValue, end := ReadEntry(a, offset);
      offset := end;
      assert es[..i + 1] == es[..i] + [es[i]];
      ValuesOfAppend(es[..i], [es[i]], key);
      assert [es[i]][1..] == [];
      if entryKey == key {
        all := all + [entryValue];
        found := true;
      }
      i := i + 1;
    }
    assert es[..n] == es;
  }

  method GetAll(a: array<Byte>, ghost b: Bucket) returns (all: seq<Entry>)
    requires Reads(a, b)
    ensures all == b.entries
  {
    hide ParseFrom, LittleEndian, EntryFits, EntryAt, EntryEnd;
    all := [];
    var n, offset := U32(a[..], 0), HEADER_SIZE;
    ghost var es := b.entries;
    ParsedLength(a[..], HEADER_SIZE, n);
    var i := 0;
    while i < n
      invariant i <= n == |es| && offset == HEADER_SIZE + Used(es[..i]) && all == es[..i]
    {
      ParsedAt(a[..], HEADER_SIZE, n, i);
      var key, value, end := ReadEntry(a, offset);
      offset := end;
      all := all + [Entry(key, value)];
      i := i + 1;
    }
  }

  /** Adds up the sizes of the entries: where the next entry would go. */
  method UsedSpace(a: array<Byte>, ghost b: Bucket) returns (used: nat)
    requires Reads(a, b)
    ensures used == Used(b.entries) && HEADER_SIZE + used <= PAGE_SIZE
  {
    hide ParseFrom, LittleEndian, EntryAt;
    used := 0;
    var n := U32(a[..], 0);
    ghost var es := b.entries;
    ParsedLength(a[..], HEADER_SIZE, n);
    var i := 0;
    while i < n
      invariant i <= n == |es| && used == Used(es[..i])
    {
      ParsedAt(a[..], HEADER_SIZE, n, i);
      used := used + EntrySize(U32(a[..], HEADER_SIZE + used));
      i := i + 1;
    }
    assert es[..n] == es;
    ParsedFits(a[..], HEADER_SIZE, n);
  }

  method IsFull(a: array<Byte>, keySize: nat, ghost b: Bucket) returns (full: bool)
    requires Reads(a, b)
    ensures full <==> Used(b.entries) + EntrySize(keySize) > MAX_ENTRY_SPACE
  {
    var used := UsedSpace(a, b);
    full := used + EntrySize(keySize) > MAX_ENTRY_SPACE;
  }

  /** Appends the entry exactly when the page accepts it; otherwise not a byte changes. */
  method Insert(a: array<Byte>, key: Key, value: RowId, ghost b: Bucket) returns (ok: bool)
    requires Reads(a, b)
    modifies a
    ensures ok <==> Accepts(b.entries, key)
    ensures ok ==> Reads(a, b.(entries := b.entries + [Entry(key, value)]))
    ensures !ok ==> a[..] == old(a[..])
  {
    hide ParseFrom, Parse, NumEntries, LittleEndian, U32, U32Bytes, U64Bytes, EntryFits, EntryBytes, Used, Write, FirstMatch;
    ok := false;
    if key == [] { return; }
    var existing := Search(a, key, b);
    if existing.Some? { return; }
    var full := IsFull(a, |key|, b);
    if full { return; }
    var used := UsedSpace(a, b);
    ghost var s := a[..];
    ghost var e := Entry(key, value);
    FourWrites(s, HEADER_SIZE + used, e);
    InsertedParses(s, e);
    var numEntries, offset := U32(a[..], 0), HEADER_SIZE + used;
    MemCopy(a, offset, U32Bytes(|key|));
    MemCopy(a, offset + 4, key);
    MemCopy(a, offset + 4 + |key|, U32Bytes(8));
    MemCopy(a, offset + 4 + |key| + 4, U64Bytes(value));
    MemCopy(a, 0, U32Bytes(numEntries + 1));
    ok := true;
  }

  lemma FourWrites(s: seq<Byte>, at: nat, e: Entry)
    requires |e.key| < 0x1_0000_0000 && at + EntrySize(|e.key|) <= |s|
    ensures var k := |e.key|;
            Write(Write(Write(Write(s, at, U32Bytes(k)), at + 4, e.key), at + 4 + k, U32Bytes(8)), at + 4 + k + 4, U64Bytes(e.value)) ==
            Write(s, at, EntryBytes(e))
  {
    var k := |e.key|;
    WrittenTwice(s, at, U32Bytes(k), e.key);
    WrittenTwice(s, at, U32Bytes(k) + e.key, U32Bytes(8));
    WrittenTwice(s, at, U32Bytes(k) + e.key + U32Bytes(8), U64Bytes(e.value));
  }

  lemma InsertedParses(s: seq<Byte>, e: Entry)
    requires |s| == PAGE_SIZE && Parse(s).Some? && |e.key| < 0x1_0000_0000
    requires HEADER_SIZE + Used(Parse(s).value.entries) + EntrySize(|e.key|) <= PAGE_SIZE
    ensures var es := Parse(s).value.entries;
            |es| == U32(s, 0) < 1000 &&
            Parse(Write(Write(s, HEADER_SIZE + Used(es), EntryBytes(e)), 0, U32Bytes(|es| + 1))) ==
            Some(Bucket(es + [e], Parse(s).value.next))
  {
    var es := Parse(s).value.entries;
    ParsedLength(s, HEADER_SIZE, NumEntries(s));
    UsedBounds(es);
    var end, w := HEADER_SIZE + Used(es), EntryBytes(e);
    var mid := Write(s, end, w);
    var s' := Write(mid, 0, U32Bytes(|es| + 1));
    WrittenAt(mid, 0, U32Bytes(|es| + 1));
    WrittenAt(s, end, w);
    WrittenElsewhere(mid, 0, U32Bytes(|es| + 1), 4, end);
    WrittenElsewhere(mid, 0, U32Bytes(|es| + 1), end, end + |w|);
    WrittenElsewhere(s, end, w, 4, end);
    AppendedParses(s, s', e);
  }

  /** Takes out the first entry that matches, moving the later ones down; the link stays. */
  method Remove(a: array<Byte>, key: Key, value: RowId, ghost b: Bucket) returns (ok: bool)
    requires Reads(a, b)
    modifies a
    ensures ok <==> key != [] && FirstMatch(b.entries, key, value) < |b.entries|
    ensures ok ==> Reads(a, b.(entries := Removed(b.entries, FirstMatch(b.entries, key, value))))
    ensures !ok ==> a[..] == old(a[..])
  {
    hide ParseFrom, LittleEndian, EntryFits, EntryAt, EntryEnd, FirstMatch, Write, Zeros, U32Bytes;
    ok := false;
    if key == [] { return; }
    var n, offset := U32(a[..], 0), HEADER_SIZE;
    ghost var es := b.entries;
    ParsedLength(a[..], HEADER_SIZE, n);
    var i := 0;
    while i < n
      invariant i <= n == |es| && offset == HEADER_SIZE + Used(es[..i]) && a[..] == old(a[..])
      invariant forall j :: 0 <= j < i ==> !Matches(es[j], key, value)
    {
      ParsedAt(a[..], HEADER_SIZE, n, i);
      var entryStart := offset;
      var entryKey, entryValue, end := ReadEntry(a, offset);
      offset := end;
      if entryKey == key && (value == INVALID_ROW_ID || entryValue == value) {
        FirstIs(es, key, value, i);
        CloseGap(a, entryStart, offset, n, i, b);
        return true;
      }
      i := i + 1;
    }
    FirstMatchNone(es, key, value);
  }

  lemma FirstMatchNone(es: seq<Entry>, key: Key, value: RowId)
    requires forall j :: 0 <= j < |es| ==> !Matches(es[j], key, value)
    ensures FirstMatch(es, key, value) == |es|
  {
  }

  method CloseGap(a: array<Byte>, start: nat, end: nat, n: nat, i: nat, ghost b: Bucket)
    requires Reads(a, b) && i < |b.entries| == n == U32(a[..], 0)
    requires start == HEADER_SIZE + Used(b.entries[..i]) && end == HEADER_SIZE + Used(b.entries[..i + 1])
    requires start <= end <= PAGE_SIZE
    modifies a
    ensures Reads(a, b.(entries := Removed(b.entries, i)))
  {
    hide ParseFrom, LittleEndian, Used, U32Bytes, Parse;
    ghost var s := a[..];
    var entrySize, remaining := end - start, PAGE_SIZE - end;
    if remaining > 0 {
      MemMove(a, start, end, remaining);
    }
    ghost var moved := a[..];
    assert moved == Write(s, start, s[end..PAGE_SIZE]);
    MemClear(a, PAGE_SIZE - entrySize, entrySize);
    ghost var cleared := a[..];
    MemCopy(a, 0, U32Bytes(n - 1));
    ClosedParses(s, moved, cleared, a[..], start, end, i);
  }

  lemma ClosedParses(s: seq<Byte>, moved: seq<Byte>, cleared: seq<Byte>, s': seq<Byte>, start: nat, end: nat, i: nat)
    requires |s| == PAGE_SIZE && Parse(s).Some? && i < |Parse(s).value.entries| < 0x1_0000_0000
    requires start == HEADER_SIZE + Used(Parse(s).value.entries[..i]) && end == HEADER_SIZE + Used(Parse(s).value.entries[..i + 1])
    requires start <= end <= PAGE_SIZE && moved == Write(s, start, s[end..PAGE_SIZE])
    requires cleared == Write(moved, PAGE_SIZE - (end - start), Zeros(end - start))
    requires s' == Write(cleared, 0, U32Bytes(|Parse(s).value.entries| - 1))
    ensures Parse(s') == Some(Bucket(Removed(Parse(s).value.entries, i), Parse(s).value.next))
  {
    hide ParseFrom, LittleEndian, Used, Write, Zeros, U32Bytes, Parse, NumEntries;
    var n := U32Bytes(|Parse(s).value.entries| - 1);
    var rest, gap, at := s[end..PAGE_SIZE], Zeros(end - start), PAGE_SIZE - (end - start);
    WrittenAt(cleared, 0, n);
    WrittenAt(s, start, rest);
    WrittenElsewhere(cleared, 0, n, 4, start);
    WrittenElsewhere(cleared, 0, n, start, start + |rest|);
    WrittenElsewhere(moved, at, gap, 4, start);
    WrittenElsewhere(moved, at, gap, start, start + |rest|);
    WrittenElsewhere(s, start, rest, 4, start);
    assert U32(s', 0) == LittleEndian(s'[0..4]) == LittleEndian(n);
    RemovedParses(s, s', i);
  }
}
