/**
 * What the flat page invariant means: it implies the textbook recursive definition of a B+ tree,
 * the leaf chain is the in-order list of the leaves, the chain spells the stored map in key order,
 * and a tree of a given height holds at least as many keys as its fill guarantees.
 */
module BPlusTheory {
  import opened Numbers
  import opened BPlusPages
  import opened BPlusInsert
  import opened BPlusBalance
  import opened BPlusDelete
  import opened BPlusRemove

  // ---------- The textbook definition ----------

  /** Page `p` is the root of a B+ tree of the given height whose keys lie in [lo, hi): sorted
      nodes, separators bounding the subtrees, all leaves at one depth, parent pointers correct. */
  ghost predicate IsTree(pages: map<PageId, Node>, p: PageId, parent: PageId, lo: Bound, hi: Bound, level: nat)
    decreases level
  {
    p in pages && pages[p].parent == parent &&
    if level == 0 then pages[p].Leaf? && LeafOk(pages[p].entries, Span(lo, hi, 0))
    else
      IsInternal(pages, p) && KeysOk(pages[p].keys, Span(lo, hi, level)) &&
      forall i :: 0 <= i < |pages[p].children| ==>
        IsTree(pages, pages[p].children[i], p,
               ChildLo(pages[p].keys, Span(lo, hi, level), i), ChildHi(pages[p].keys, Span(lo, hi, level), i), level - 1)
  }

  lemma {:induction false} SubtreeIsTree(v: View, cap: nat, p: PageId)
    requires Inv(v, cap) && p in v.pages
    ensures IsTree(v.pages, p, v.pages[p].parent, v.spans[p].lo, v.spans[p].hi, v.spans[p].level)
    decreases v.spans[p].level
  {
    assert NodeOk(v, p);
    if v.pages[p].Internal? {
      forall i | 0 <= i < |v.pages[p].children|
        ensures IsTree(v.pages, v.pages[p].children[i], p,
                       ChildLo(v.pages[p].keys, v.spans[p], i), ChildHi(v.pages[p].keys, v.spans[p], i), v.spans[p].level - 1)
      {
        assert ChildOk(v, p, i);
        SubtreeIsTree(v, cap, v.pages[p].children[i]);
      }
    }
  }

  lemma InvIsTree(v: View, cap: nat)
    requires Inv(v, cap)
    ensures IsTree(v.pages, v.root, INVALID_PAGE_ID, NegInf, PosInf, v.spans[v.root].level)
  {
    assert UpOk(v, v.root);
    SubtreeIsTree(v, cap, v.root);
  }

  // ---------- The chain is the in-order list of leaves ----------

  function LeavesBelow(pages: map<PageId, Node>, p: PageId, level: nat): seq<PageId>
    decreases level, 0
  {
    if level == 0 || p !in pages || pages[p].Leaf? then [p] else LeavesOf(pages, pages[p].children, level - 1)
  }

  function LeavesOf(pages: map<PageId, Node>, children: seq<PageId>, level: nat): seq<PageId>
    decreases level, 1, |children|
  {
    if children == [] then [] else LeavesBelow(pages, children[0], level) + LeavesOf(pages, children[1..], level)
  }

  /** `chain[a..b]` covers exactly the keys from `lo` to `hi`. */
  ghost predicate Covers(v: View, a: nat, b: nat, lo: Bound, hi: Bound)
    requires Dom(v)
  {
    a < b <= |v.chain| && v.chain[a] in v.pages && v.chain[b - 1] in v.pages &&
    v.spans[v.chain[a]].lo == lo && v.spans[v.chain[b - 1]].hi == hi
  }

  /** Slices of the chain that cover adjacent intervals are adjacent. */
  lemma CoversMeet(v: View, cap: nat, a: nat, b: nat, c: nat, d: nat, lo: Bound, mid: Bound, hi: Bound)
    requires Inv(v, cap) && Covers(v, a, b, lo, mid) && Covers(v, c, d, mid, hi) && Less(lo, mid) && Less(mid, hi)
    ensures b == c
  {
    assert LinkOk(v, b - 1) && LinkOk(v, c);
    assert NodeOk(v, v.chain[b - 1]) && NodeOk(v, v.chain[c]);
    if b - 1 != c {
      ChainStep(v, cap, b - 1, c);
    }
  }

  lemma {:induction false} SubtreeCovers(v: View, cap: nat, p: PageId) returns (a: nat, b: nat)
    requires Inv(v, cap) && p in v.pages
    ensures Covers(v, a, b, v.spans[p].lo, v.spans[p].hi)
    ensures LeavesBelow(v.pages, p, v.spans[p].level) == v.chain[a..b]
    decreases v.spans[p].level, 1, 0
  {
    assert NodeOk(v, p);
    if v.pages[p].Leaf? {
      assert p in v.chain;
      a :| 0 <= a < |v.chain| && v.chain[a] == p;
      b := a + 1;
    } else {
      a, b := ChildrenCover(v, cap, p, 0);
      assert v.pages[p].children[0..] == v.pages[p].children;
    }
  }

  /** The children of `p` from slot `i` on cover the chain from the start of child `i`. */
  lemma {:induction false} ChildrenCover(v: View, cap: nat, p: PageId, i: nat) returns (a: nat, b: nat)
    requires Inv(v, cap) && p in v.pages && v.pages[p].Internal? && i < |v.pages[p].children|
    ensures |v.pages[p].children| == |v.pages[p].keys| + 1 && v.spans[p].level > 0
    ensures Covers(v, a, b, ChildLo(v.pages[p].keys, v.spans[p], i), v.spans[p].hi)
    ensures LeavesOf(v.pages, v.pages[p].children[i..], v.spans[p].level - 1) == v.chain[a..b]
    decreases v.spans[p].level, 0, |v.pages[p].children| - i
  {
    assert NodeOk(v, p) && ChildOk(v, p, i);
    var n := v.pages[p];
    var b1;
    a, b1 := SubtreeCovers(v, cap, n.children[i]);
    var rest := n.children[i + 1..];
    assert n.children[i..][0] == n.children[i] && n.children[i..][1..] == rest;
    if rest == [] {
      b := b1;
      assert v.chain[a..b] + [] == v.chain[a..b];
    } else {
      var a2;
      a2, b := ChildrenCover(v, cap, p, i + 1);
      assert NodeOk(v, n.children[i]) && ChildOk(v, p, i + 1);
      assert Less(At(n.keys[i]), v.spans[p].hi);
      CoversMeet(v, cap, a, b1, a2, b, ChildLo(n.keys, v.spans[p], i), At(n.keys[i]), v.spans[p].hi);
      assert v.chain[a..b] == v.chain[a..b1] + v.chain[b1..b];
    }
  }

  /** The doubly linked leaf list is the list of leaves met by an in-order walk from the root. */
  lemma ChainIsInOrder(v: View, cap: nat)
    requires Inv(v, cap)
    ensures v.chain == LeavesBelow(v.pages, v.root, v.spans[v.root].level)
  {
    var a, b := SubtreeCovers(v, cap, v.root);
    WholeChain(v, cap, a, b);
    assert v.chain[0..|v.chain|] == v.chain;
  }

  lemma WholeChain(v: View, cap: nat, a: nat, b: nat)
    requires Inv(v, cap) && Covers(v, a, b, NegInf, PosInf)
    ensures a == 0 && b == |v.chain|
  {
    if a > 0 { FirstBelow(v, cap, a); }
    if b < |v.chain| { LastAbove(v, cap, b - 1); }
  }

  lemma FirstBelow(v: View, cap: nat, a: nat)
    requires Inv(v, cap) && 0 < a < |v.chain|
    ensures v.chain[a] in v.pages && v.spans[v.chain[a]].lo != NegInf
  {
    assert LinkOk(v, a - 1) && LinkOk(v, a) && NodeOk(v, v.chain[a - 1]);
  }

  lemma LastAbove(v: View, cap: nat, a: nat)
    requires Inv(v, cap) && a + 1 < |v.chain|
    ensures v.chain[a] in v.pages && v.spans[v.chain[a]].hi != PosInf
  {
    assert LinkOk(v, a) && LinkOk(v, a + 1) && NodeOk(v, v.chain[a + 1]);
  }

  // ---------- The chain spells the stored map ----------

  function Flatten(pages: map<PageId, Node>, chain: seq<PageId>): seq<Entry> {
    if chain == [] then []
    else (if IsLeaf(pages, chain[0]) then pages[chain[0]].entries else []) + Flatten(pages, chain[1..])
  }

  lemma {:induction false} FlattenFrom(v: View, cap: nat, i: nat)
    requires Inv(v, cap) && i <= |v.chain|
    ensures SortedEntries(Flatten(v.pages, v.chain[i..]))
    ensures forall e :: e in Flatten(v.pages, v.chain[i..]) ==>
                          e in Pairs(v.pages) && i < |v.chain| && v.chain[i] in v.pages && AtMost(v.spans[v.chain[i]].lo, At(e.key))
    decreases |v.chain| - i
  {
    if i < |v.chain| {
      FlattenFrom(v, cap, i + 1);
      assert LinkOk(v, i) && NodeOk(v, v.chain[i]);
      assert i + 1 < |v.chain| ==> LinkOk(v, i + 1);
      assert v.chain[i..][1..] == v.chain[i + 1..];
      var first, rest := v.pages[v.chain[i]].entries, Flatten(v.pages, v.chain[i + 1..]);
      forall e | e in first ensures e in Pairs(v.pages) && AtMost(v.spans[v.chain[i]].lo, At(e.key)) {
        var j :| 0 <= j < |first| && first[j] == e;
      }
      forall a, b | 0 <= a < |first| && 0 <= b < |rest| ensures first[a].key < rest[b].key {
        assert rest[b] in rest;
      }
    }
  }

  lemma {:induction false} FlattenHas(pages: map<PageId, Node>, chain: seq<PageId>, p: PageId, e: Entry)
    requires p in chain && IsLeaf(pages, p) && e in pages[p].entries
    ensures e in Flatten(pages, chain)
  {
    if chain[0] != p {
      FlattenHas(pages, chain[1..], p, e);
    }
  }

  /** Reading the leaves along the chain lists the stored map in strictly ascending key order. */
  lemma ChainSpellsMap(v: View, cap: nat, m: map<Key, RowId>)
    requires Inv(v, cap) && Stores(v.pages, m)
    ensures SortedEntries(Flatten(v.pages, v.chain))
    ensures forall e: Entry :: e in Flatten(v.pages, v.chain) <==> e.key in m && m[e.key] == e.value
    ensures |Flatten(v.pages, v.chain)| == |m|
  {
    FlattenFrom(v, cap, 0);
    assert v.chain[0..] == v.chain;
    forall e: Entry | e in Pairs(v.pages) ensures e in Flatten(v.pages, v.chain) {
      var p :| p in v.pages && v.pages[p].Leaf? && e in v.pages[p].entries;
      assert p in v.chain;
      FlattenHas(v.pages, v.chain, p, e);
    }
    CountKeys(Flatten(v.pages, v.chain), m);
  }

  lemma LaterKeys(entries: seq<Entry>, e: Entry)
    requires SortedEntries(entries) && entries != []
    ensures e in entries[1..] ==> e.key != entries[0].key
  {
    if e in entries[1..] {
      var i :| 0 <= i < |entries[1..]| && entries[1..][i] == e;
      assert entries[i + 1] == e;
    }
  }

  ghost predicate IsGraph(entries: seq<Entry>, m: map<Key, RowId>) {
    forall e: Entry :: e in entries <==> e.key in m && m[e.key] == e.value
  }

  lemma GraphHas(entries: seq<Entry>, m: map<Key, RowId>, k: Key)
    requires IsGraph(entries, m) && k in m
    ensures entries != []
  {
    assert Entry(k, m[k]) in entries;
  }

  lemma {:induction false} CountKeys(entries: seq<Entry>, m: map<Key, RowId>)
    requires SortedEntries(entries) && IsGraph(entries, m)
    ensures |entries| == |m|
  {
    if entries == [] {
      forall k ensures k !in m {
        if k in m { GraphHas(entries, m, k); }
      }
    } else {
      var k := entries[0].key;
      assert entries[0] in entries && k in m;
      RestIsGraph(entries, m);
      CountKeys(entries[1..], m - {k});
      assert m.Keys == (m - {k}).Keys + {k};
    }
  }

  lemma RestIsGraph(entries: seq<Entry>, m: map<Key, RowId>)
    requires SortedEntries(entries) && IsGraph(entries, m) && entries != []
    ensures IsGraph(entries[1..], m - {entries[0].key})
  {
    forall e: Entry ensures e in entries[1..] <==> e in entries && e.key != entries[0].key {
      assert e in entries <==> e == entries[0] || e in entries[1..];
      LaterKeys(entries, e);
      assert entries[0] in entries;
    }
  }

  // ---------- How much a tree of a given height holds ----------

  function Power(b: nat, e: nat): nat {
    if e == 0 then 1 else b * Power(b, e - 1)
  }

  function EntriesIn(pages: map<PageId, Node>, leaves: seq<PageId>): nat {
    |Flatten(pages, leaves)|
  }

  lemma {:induction false} FlattenConcat(pages: map<PageId, Node>, a: seq<PageId>, b: seq<PageId>)
    ensures Flatten(pages, a + b) == Flatten(pages, a) + Flatten(pages, b)
  {
    if a == [] {
      assert a + b == b;
    } else {
      FlattenConcat(pages, a[1..], b);
      assert (a + b)[1..] == a[1..] + b;
    }
  }

  /** Entries below a page that is not the root. */
  function LeastEntries(cap: nat, level: nat): nat {
    Power(cap / 2 + 1, level) * ((cap + 1) / 2)
  }

  lemma {:induction false} SubtreeHolds(v: View, cap: nat, p: PageId)
    requires Inv(v, cap) && HalfFull(v, cap) && p in v.pages && p != v.root
    ensures EntriesIn(v.pages, LeavesBelow(v.pages, p, v.spans[p].level)) >= LeastEntries(cap, v.spans[p].level)
    decreases v.spans[p].level, 1, 0
  {
    hide LeastEntries;
    assert NodeOk(v, p) && FullEnough(v, cap, p);
    if v.pages[p].Leaf? {
      LeastLeaf(cap);
      assert Flatten(v.pages, [p]) == v.pages[p].entries + Flatten(v.pages, [p][1..]);
    } else {
      var level := v.spans[p].level;
      ChildrenHold(v, cap, p, 0);
      assert v.pages[p].children[0..] == v.pages[p].children;
      LeastStep(cap, level, |v.pages[p].children|);
    }
  }

  lemma LeastLeaf(cap: nat)
    ensures LeastEntries(cap, 0) == (cap + 1) / 2
  {
  }

  lemma LeastStep(cap: nat, level: nat, children: nat)
    requires level > 0 && children >= cap / 2 + 1
    ensures children * LeastEntries(cap, level - 1) >= LeastEntries(cap, level)
  {
    ProductMonotone(LeastEntries(cap, level - 1), cap / 2 + 1, children);
    ProductSplit(cap / 2 + 1, Power(cap / 2 + 1, level - 1), (cap + 1) / 2);
  }

  lemma {:induction false} ChildrenHold(v: View, cap: nat, p: PageId, i: nat)
    requires Inv(v, cap) && HalfFull(v, cap) && p in v.pages && v.pages[p].Internal?
    requires v.spans[p].level > 0 && i <= |v.pages[p].children|
    ensures EntriesIn(v.pages, LeavesOf(v.pages, v.pages[p].children[i..], v.spans[p].level - 1))
            >= (|v.pages[p].children| - i) * LeastEntries(cap, v.spans[p].level - 1)
    decreases v.spans[p].level, 0, |v.pages[p].children| - i
  {
    hide LeastEntries;
    var children, level := v.pages[p].children, v.spans[p].level;
    if i < |children| {
      assert NodeOk(v, p) && ChildOk(v, p, i);
      var c := children[i];
      assert UpOk(v, v.root);
      SubtreeHolds(v, cap, c);
      ChildrenHold(v, cap, p, i + 1);
      assert children[i..][0] == c && children[i..][1..] == children[i + 1..];
      FlattenConcat(v.pages, LeavesBelow(v.pages, c, level - 1), LeavesOf(v.pages, children[i + 1..], level - 1));
      ProductStep(|children| - i, LeastEntries(cap, level - 1));
    }
  }

  lemma ProductStep(a: int, b: nat)
    ensures a * b == b + (a - 1) * b
  {
  }

  lemma ProductSplit(a: nat, b: nat, c: nat)
    ensures a * (b * c) == (a * b) * c
  {
  }

  /** A tree built by insertions with h levels above its leaves holds at least
      2 * (cap / 2 + 1)^(h - 1) * ((cap + 1) / 2) keys. */
  lemma TreeHolds(v: View, cap: nat, m: map<Key, RowId>)
    requires Inv(v, cap) && Balanced(v, cap) && Stores(v.pages, m) && v.spans[v.root].level > 0
    ensures |m| >= 2 * LeastEntries(cap, v.spans[v.root].level - 1)
  {
    assert NodeOk(v, v.root);
    ChainSpellsMap(v, cap, m);
    ChainIsInOrder(v, cap);
    ChildrenHold(v, cap, v.root, 0);
    assert v.pages[v.root].children[0..] == v.pages[v.root].children;
    ProductMonotone(LeastEntries(cap, v.spans[v.root].level - 1), 2, |v.pages[v.root].children|);
  }

  // ---------- Deleting a separator ----------

  /** The tree that four insertions 1, 2, 3, 4 build with three keys per page. */
  const FOUR_KEYS: View :=
    View(map[1 := Leaf([Entry(1, 10), Entry(2, 20)], 3, 2, 0),
             2 := Leaf([Entry(3, 30), Entry(4, 40)], 3, 0, 1),
             3 := Internal([3], [1, 2], 0)],
         3,
         map[1 := Span(NegInf, At(3), 0), 2 := Span(At(3), PosInf, 0), 3 := Span(NegInf, PosInf, 1)],
         [1, 2])

  /** It is what the split of a root leaf with the four entries leaves. */
  lemma FourKeysBuilt()
    ensures var leaf := Leaf([Entry(1, 10), Entry(2, 20), Entry(3, 30), Entry(4, 40)], INVALID_PAGE_ID, INVALID_PAGE_ID, INVALID_PAGE_ID);
            NewRootPages(SplitLeafPages(map[1 := leaf], 1, 2), 1, MidKey(leaf), 2, 3) == FOUR_KEYS.pages
  {
    var es := [Entry(1, 10), Entry(2, 20), Entry(3, 30), Entry(4, 40)];
    assert es[..2] == [Entry(1, 10), Entry(2, 20)] && es[2..] == [Entry(3, 30), Entry(4, 40)];
  }

  lemma FourKeysValid()
    ensures Inv(FOUR_KEYS, 3) && Balanced(FOUR_KEYS, 3)
  {
    var v := FOUR_KEYS;
    assert ChildOk(v, 3, 0) && ChildOk(v, 3, 1);
    assert LinkOk(v, 0) && LinkOk(v, 1) && Apart(v, 0, 1);
  }

  lemma FourKeysExact()
    ensures Exact(FOUR_KEYS.pages) && IsSeparator(FOUR_KEYS.pages, 3)
  {
    var pages := FOUR_KEYS.pages;
    assert ExactAt(pages, 3, 0);
    assert pages[3].keys[0] == 3 && IsLeaf(pages, pages[3].children[1]);
  }

  lemma FourKeysUnsafe()
    ensures !SafeToRemove(FOUR_KEYS.pages, 3, 3)
  {
    var pages := FOUR_KEYS.pages;
    assert KeyIndex(pages[2].entries, 3) == 0 && IsLeaf(pages, 2);
    assert DropAt(pages[2].entries, 0) == [Entry(4, 40)];
    var cut := Without(pages, 2, 3);
    assert cut[2] == Leaf([Entry(4, 40)], 3, 0, 1) && cut[3] == Internal([3], [1, 2], 0);
    assert cut[3].children[1..] == [2];
    assert IndexOf(cut[3].children, 2) == 1;
    assert !Repairable(cut, 3, 2);
  }

  /** Deleting a key that is a separator can break a tree that insertions built: here the deletion of
      3 frees page 2 while page 3 still points to it. */
  lemma SeparatorDeletionBreaks()
    ensures Inv(FOUR_KEYS, 3) && Balanced(FOUR_KEYS, 3) && Exact(FOUR_KEYS.pages) && IsSeparator(FOUR_KEYS.pages, 3)
    ensures Dangling(RemovePages(FOUR_KEYS.pages, 3, 3, 2, 3).0)
  {
    FourKeysValid();
    FourKeysExact();
    FourKeysUnsafe();
    hide Inv, Balanced, Exact, Stores, SafeToRemove, RemovePages, Dangling, IsSeparator;
    FourKeysStored(FOUR_KEYS.pages);
    var w := RemoveTheorem(FOUR_KEYS, 3, 2, 3, 0, map[1 := 10, 2 := 20, 3 := 30, 4 := 40]);
  }

  lemma FourKeysStored(pages: map<PageId, Node>)
    requires pages == FOUR_KEYS.pages
    ensures Stores(pages, map[1 := 10, 2 := 20, 3 := 30, 4 := 40])
  {
    assert pages[1].entries == [Entry(1, 10), Entry(2, 20)];
    forall e: Entry ensures e in Pairs(pages) <==> e in pages[1].entries || e in pages[2].entries {
      if e in pages[1].entries || e in pages[2].entries {
        assert e in pages[if e in pages[1].entries then 1 else 2].entries;
      }
    }
  }
}
