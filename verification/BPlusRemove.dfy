/**
 * What a deletion does to the pages after it has taken the key out of its leaf, and exactly when it
 * leaves a valid tree behind.
 *
 * A merge finds the separator to drop by comparing the parent's keys with the first key of the leaf
 * it frees.  If that key is not the separator, the parent keeps a child that no longer exists.
 */
module BPlusRemove {
  import opened BPlusPages
  import opened BPlusInsert
  import opened BPlusBalance
  import opened BPlusDelete

  function MinKeys(cap: nat): nat {
    (cap + 1) / 2
  }

  /** The first position of `x` in `s`, or -1. */
  function IndexOf<T(==)>(s: seq<T>, x: T): (r: int)
    ensures -1 <= r < |s| && (r < 0 <==> x !in s)
    ensures r >= 0 ==> s[r] == x && forall i :: 0 <= i < r ==> s[i] != x
  {
    if s == [] then -1
    else if s[0] == x then 0
    else
      var r := IndexOf(s[1..], x);
      assert s == [s[0]] + s[1..];
      if r < 0 then -1 else r + 1
  }

  predicate IsLeaf(pages: map<PageId, Node>, p: PageId) {
    p in pages && pages[p].Leaf?
  }

  /** An internal page as the page format stores it: one child more than keys. */
  predicate IsInternal(pages: map<PageId, Node>, p: PageId) {
    p in pages && pages[p].Internal? && |pages[p].children| == |pages[p].keys| + 1
  }

  predicate CanLend(pages: map<PageId, Node>, p: PageId, cap: nat) {
    IsLeaf(pages, p) && |pages[p].entries| > MinKeys(cap)
  }

  function BorrowLeftPages(pages: map<PageId, Node>, q: PageId, i: nat): map<PageId, Node>
    requires IsInternal(pages, q) && 0 < i < |pages[q].children|
    requires IsLeaf(pages, pages[q].children[i - 1]) && IsLeaf(pages, pages[q].children[i])
    requires pages[pages[q].children[i - 1]].entries != []
  {
    var le, re := pages[pages[q].children[i - 1]].entries, pages[pages[q].children[i]].entries;
    ShiftPages(pages, q, i - 1, le[..|le| - 1], [le[|le| - 1]] + re)
  }

  function BorrowRightPages(pages: map<PageId, Node>, q: PageId, i: nat): map<PageId, Node>
    requires IsInternal(pages, q) && i + 1 < |pages[q].children|
    requires IsLeaf(pages, pages[q].children[i]) && IsLeaf(pages, pages[q].children[i + 1])
    requires |pages[pages[q].children[i + 1]].entries| > 1
  {
    var le, re := pages[pages[q].children[i]].entries, pages[pages[q].children[i + 1]].entries;
    ShiftPages(pages, q, i, le + [re[0]], re[1..])
  }

  /** Page `q` without the separator `key` and the child beside it, if it has such a separator. */
  function DropSeparator(n: Node, entries: seq<Entry>): Node
    requires n.Internal? && |n.children| == |n.keys| + 1
  {
    var j := if entries == [] then -1 else IndexOf(n.keys, entries[0].key);
    if j < 0 then n else n.(keys := DropAt(n.keys, j), children := DropAt(n.children, j + 1))
  }

  /** Merging leaf `r` into `l`: the page of `r` is freed whether or not its separator was found.
      (Merging an empty leaf to the left reads the first of no entries, which C++ leaves undefined;
      here it finds no separator.) */
  function MergePages(pages: map<PageId, Node>, l: PageId, r: PageId, q: PageId): map<PageId, Node>
    requires IsLeaf(pages, l) && IsLeaf(pages, r) && IsInternal(pages, q)
  {
    var joined := pages[l := pages[l].(entries := pages[l].entries + pages[r].entries, next := pages[r].next)];
    var linked := WithPrev(joined, pages[r].next, l);
    linked[q := DropSeparator(pages[q], pages[r].entries)] - {r}
  }

  /** The pages after `handleUnderflow` on page `p` below `q`. */
  function UnderflowPages(pages: map<PageId, Node>, cap: nat, p: PageId, q: PageId): map<PageId, Node>
    requires cap > 0
  {
    if !IsInternal(pages, q) || !IsLeaf(pages, p) then pages
    else
      var i, n := IndexOf(pages[q].children, p), |pages[q].children|;
      if i < 0 then pages
      else if i > 0 && CanLend(pages, pages[q].children[i - 1], cap) then BorrowLeftPages(pages, q, i)
      else if i + 1 < n && CanLend(pages, pages[q].children[i + 1], cap) then BorrowRightPages(pages, q, i)
      else if i > 0 && IsLeaf(pages, pages[q].children[i - 1]) then MergePages(pages, pages[q].children[i - 1], p, q)
      else if i == 0 && 1 < n && IsLeaf(pages, pages[q].children[1]) then MergePages(pages, p, pages[q].children[1], q)
      else pages
  }

  predicate FirstIs(entries: seq<Entry>, k: Key) {
    entries != [] && entries[0].key == k
  }

  /** The underflow of leaf `p` can be repaired: it need not be, a sibling can lend an entry, or the
      leaf a merge frees starts with its separator. */
  predicate Repairable(pages: map<PageId, Node>, cap: nat, p: PageId)
    requires IsLeaf(pages, p)
  {
    var q := pages[p].parent;
    |pages[p].entries| >= MinKeys(cap) || !IsInternal(pages, q) ||
    var i, n := IndexOf(pages[q].children, p), |pages[q].children|;
    i < 0 || n == 1 ||
    (i > 0 && CanLend(pages, pages[q].children[i - 1], cap)) ||
    (i + 1 < n && CanLend(pages, pages[q].children[i + 1], cap)) ||
    (i > 0 && FirstIs(pages[p].entries, pages[q].keys[i - 1])) ||
    (i == 0 && IsLeaf(pages, pages[q].children[1]) && FirstIs(pages[pages[q].children[1]].entries, pages[q].keys[0]))
  }

  /** Some page with a separator lists a child that does not exist. */
  ghost predicate Dangling(pages: map<PageId, Node>) {
    exists q, c :: q in pages && pages[q].Internal? && pages[q].keys != [] && c in pages[q].children && c !in pages
  }

  /** A tree with a dangling child satisfies the invariant under no spans, chain or root. */
  lemma DanglingIsInvalid(v: View, cap: nat)
    requires Dangling(v.pages)
    ensures !Inv(v, cap)
  {
    if Inv(v, cap) {
      NoDangling(v, cap);
    }
  }

  lemma NoDangling(v: View, cap: nat)
    requires Inv(v, cap)
    ensures !Dangling(v.pages)
  {
    forall q, c | q in v.pages && v.pages[q].Internal? && c in v.pages[q].children ensures c in v.pages {
      assert NodeOk(v, q);
      var i :| 0 <= i < |v.pages[q].children| && v.pages[q].children[i] == c;
      assert ChildOk(v, q, i);
    }
  }

  /** Merging neighbours whose separator is the first key of the right one drops that separator. */
  lemma MergeFindsSeparator(v: View, cap: nat, q: PageId, i: nat)
    requires Neighbours(v, cap, q, i)
    requires FirstIs(v.pages[v.pages[q].children[i + 1]].entries, v.pages[q].keys[i])
    ensures MergePages(v.pages, v.pages[q].children[i], v.pages[q].children[i + 1], q) == MergedPages(v.pages, q, i)
  {
    var keys := v.pages[q].keys;
    var j := IndexOf(keys, keys[i]);
    assert keys[i] in keys;
    assert j == i;
  }

  /** Merging neighbours with a stale separator frees a page that its parent still lists. */
  lemma MergeMissesSeparator(v: View, cap: nat, q: PageId, i: nat)
    requires Neighbours(v, cap, q, i)
    requires !FirstIs(v.pages[v.pages[q].children[i + 1]].entries, v.pages[q].keys[i])
    ensures Dangling(MergePages(v.pages, v.pages[q].children[i], v.pages[q].children[i + 1], q))
  {
    var l, r := v.pages[q].children[i], v.pages[q].children[i + 1];
    var entries, keys := v.pages[r].entries, v.pages[q].keys;
    assert NodeOk(v, r) && NodeOk(v, q);
    if entries != [] {
      assert Within(v.spans[r], entries[0].key);
      forall j | 0 <= j < |keys| ensures keys[j] != entries[0].key {
        assert j < i ==> keys[j] < keys[i];
        assert i + 1 < j ==> keys[i + 1] < keys[j];
      }
    }
    var pages := MergePages(v.pages, l, r, q);
    assert q in pages && pages[q] == v.pages[q] && r in pages[q].children && r !in pages;
  }

  // ---------- The underflow of a leaf, case by case ----------

  /** `w` is a valid tree with the pages `pages` that stores what `v` stores. */
  ghost predicate Repaired(v: View, w: View, cap: nat, pages: map<PageId, Node>) {
    w.pages == pages && w.root == v.root && Inv(w, cap) && Pairs(w.pages) == Pairs(v.pages) &&
    (Exact(v.pages) ==> Exact(w.pages))
  }

  ghost predicate Underflown(v: View, cap: nat, p: PageId, i: nat) {
    Inv(v, cap) && cap > 0 && p in v.pages && p != v.root && v.pages[p].Leaf? && |v.pages[p].entries| < MinKeys(cap) &&
    var q := v.pages[p].parent;
    q in v.pages && v.pages[q].Internal? && InternalOk(v, q) && i < |v.pages[q].children| &&
    v.pages[q].children[i] == p && ChildOk(v, q, i)
  }

  lemma BorrowLeft(v: View, cap: nat, p: PageId, i: nat) returns (w: View)
    requires Underflown(v, cap, p, i) && i > 0 && CanLend(v.pages, v.pages[v.pages[p].parent].children[i - 1], cap)
    ensures Repaired(v, w, cap, BorrowLeftPages(v.pages, v.pages[p].parent, i))
  {
    var q := v.pages[p].parent;
    SiblingIsLeaf(v, cap, q, i, i - 1);
    var l := v.pages[q].children[i - 1];
    var le, re := v.pages[l].entries, v.pages[p].entries;
    var le', re' := le[..|le| - 1], [le[|le| - 1]] + re;
    assert SizeOk(v, cap, INVALID_PAGE_ID, l);
    assert le' + re' == le + re;
    w := ShiftView(v, q, i - 1, le', re');
    ShiftKeepsInv(v, cap, q, i - 1, le', re');
    ShiftPairs(v, cap, q, i - 1, le', re');
    if Exact(v.pages) { ShiftExact(v, cap, q, i - 1, le', re'); }
  }

  lemma BorrowRight(v: View, cap: nat, p: PageId, i: nat) returns (w: View)
    requires Underflown(v, cap, p, i) && i + 1 < |v.pages[v.pages[p].parent].children|
    requires CanLend(v.pages, v.pages[v.pages[p].parent].children[i + 1], cap)
    ensures Repaired(v, w, cap, BorrowRightPages(v.pages, v.pages[p].parent, i))
  {
    var q := v.pages[p].parent;
    SiblingIsLeaf(v, cap, q, i, i + 1);
    var r := v.pages[q].children[i + 1];
    var le, re := v.pages[p].entries, v.pages[r].entries;
    var le', re' := le + [re[0]], re[1..];
    assert SizeOk(v, cap, INVALID_PAGE_ID, r);
    assert le' + re' == le + re;
    w := ShiftView(v, q, i, le', re');
    ShiftKeepsInv(v, cap, q, i, le', re');
    ShiftPairs(v, cap, q, i, le', re');
    if Exact(v.pages) {
      ExactFirst(v, cap, p, i);
      ShiftExact(v, cap, q, i, le', re');
    }
  }

  /** In a tree with exact separators a leaf after the first child starts with its separator. */
  lemma ExactFirst(v: View, cap: nat, p: PageId, i: nat)
    requires Inv(v, cap) && Exact(v.pages) && p in v.pages && v.pages[p].Leaf?
    requires var q := v.pages[p].parent;
             q in v.pages && v.pages[q].Internal? && InternalOk(v, q) && i < |v.pages[q].children| && v.pages[q].children[i] == p
    ensures i > 0 ==> FirstIs(v.pages[p].entries, v.pages[v.pages[p].parent].keys[i - 1])
  {
    if i > 0 {
      assert ExactPage(v.pages, v.pages[p].parent);
      assert ExactAt(v.pages, v.pages[p].parent, i - 1);
    }
  }

  /** Merging the neighbours at slots `i` and `i + 1` when the separator is found. */
  lemma MergeNeighbours(v: View, cap: nat, q: PageId, i: nat) returns (w: View)
    requires CanMerge(v, cap, q, i)
    requires FirstIs(v.pages[v.pages[q].children[i + 1]].entries, v.pages[q].keys[i])
    ensures Repaired(v, w, cap, MergePages(v.pages, v.pages[q].children[i], v.pages[q].children[i + 1], q))
  {
    var a := NeighboursInChain(v, cap, q, i);
    w := MergeView(v, q, i, a);
    MergeFindsSeparator(v, cap, q, i);
    MergeKeepsInv(v, cap, q, i, a);
    MergePairs(v, cap, q, i, a);
    if Exact(v.pages) {
      ExactFirst(v, cap, v.pages[q].children[i], i);
      MergeExact(v, cap, q, i, a);
    }
  }

  /** A leaf below the minimum and a sibling with nothing to lend fit in one page. */
  lemma MergeFits(v: View, cap: nat, p: PageId, i: nat, j: nat)
    requires Underflown(v, cap, p, i) && (j + 1 == i || (j == i && i + 1 < |v.pages[v.pages[p].parent].children|))
    requires var q := v.pages[p].parent; !CanLend(v.pages, v.pages[q].children[if j == i then i + 1 else j], cap)
    ensures CanMerge(v, cap, v.pages[p].parent, j)
  {
    var q := v.pages[p].parent;
    SiblingIsLeaf(v, cap, q, i, if j == i then i + 1 else j);
  }

  lemma MergeCase(v: View, cap: nat, p: PageId, i: nat, j: nat) returns (w: View)
    requires Underflown(v, cap, p, i) && (j + 1 == i || (j == i && i + 1 < |v.pages[v.pages[p].parent].children|))
    requires var q := v.pages[p].parent; !CanLend(v.pages, v.pages[q].children[if j == i then i + 1 else j], cap)
    ensures var q := v.pages[p].parent;
            var l, r := v.pages[q].children[j], v.pages[q].children[j + 1];
            IsLeaf(v.pages, l) && IsLeaf(v.pages, r) &&
            if FirstIs(v.pages[r].entries, v.pages[q].keys[j])
            then Repaired(v, w, cap, MergePages(v.pages, l, r, q))
            else Dangling(MergePages(v.pages, l, r, q))
  {
    var q := v.pages[p].parent;
    MergeFits(v, cap, p, i, j);
    if FirstIs(v.pages[v.pages[q].children[j + 1]].entries, v.pages[q].keys[j]) {
      w := MergeNeighbours(v, cap, q, j);
    } else {
      w := v;
      MergeMissesSeparator(v, cap, q, j);
    }
  }

  lemma SlotIsIndex(v: View, cap: nat, p: PageId, i: nat)
    requires Underflown(v, cap, p, i)
    ensures IndexOf(v.pages[v.pages[p].parent].children, p) == i
  {
    var children := v.pages[v.pages[p].parent].children;
    var j := IndexOf(children, p);
    if j < i { DistinctChildren(v, cap, INVALID_PAGE_ID, v.pages[p].parent, j, i); }
    FirstIndex(children, p, i);
  }

  lemma FirstIndex<T>(s: seq<T>, x: T, i: nat)
    requires i < |s| && s[i] == x
    ensures 0 <= IndexOf(s, x) <= i
  {
    assert s[i] in s;
  }

  /** Handling the underflow of a leaf leaves a valid tree that stores the same entries exactly when
      the underflow is repairable; otherwise a freed page stays linked from its parent. */
  lemma UnderflowTheorem(v: View, cap: nat, p: PageId) returns (w: View)
    requires Inv(v, cap) && cap > 0 && p in v.pages && p != v.root && v.pages[p].Leaf? && |v.pages[p].entries| < MinKeys(cap)
    ensures if Repairable(v.pages, cap, p)
            then Repaired(v, w, cap, UnderflowPages(v.pages, cap, p, v.pages[p].parent))
            else Dangling(UnderflowPages(v.pages, cap, p, v.pages[p].parent))
  {
    var i := ParentSlot(v, cap, INVALID_PAGE_ID, p);
    var q := v.pages[p].parent;
    SlotIsIndex(v, cap, p, i);
    var children := v.pages[q].children;
    if i > 0 && CanLend(v.pages, children[i - 1], cap) {
      w := BorrowLeft(v, cap, p, i);
    } else if i + 1 < |children| && CanLend(v.pages, children[i + 1], cap) {
      w := BorrowRight(v, cap, p, i);
    } else if i > 0 {
      w := MergeCase(v, cap, p, i, i - 1);
    } else if |children| > 1 {
      w := MergeCase(v, cap, p, i, i);
    } else {
      w := v;
    }
  }

  // ---------- How full the leaves stay ----------

  /** Leaves with a sibling are half full, except that `p` may lack one entry. */
  ghost predicate FilledBut(v: View, cap: nat, p: PageId) {
    (p in v.pages ==> LeafFilled(v, cap, p, 1)) &&
    forall x {:trigger LeafFilled(v, cap, x, 0)} :: x in v.pages && x != p ==> LeafFilled(v, cap, x, 0)
  }

  /** A root without keys stands right above a leaf, so dropping it leaves a leaf as the root. */
  ghost predicate RootSettles(v: View) {
    RootBranches(v) || (v.root in v.pages && v.pages[v.root].Internal? && v.pages[v.root].children != [] &&
                        IsLeaf(v.pages, v.pages[v.root].children[0]))
  }

  lemma ShiftFills(v: View, cap: nat, q: PageId, i: nat, le: seq<Entry>, re: seq<Entry>, p: PageId)
    requires CanShift(v, cap, q, i, le, re) && FilledBut(v, cap, p) && p in v.pages[q].children[i..i + 2]
    requires |le| >= MinKeys(cap) && |re| >= MinKeys(cap)
    ensures LeavesFilled(ShiftView(v, q, i, le, re), cap)
  {
    var w := ShiftView(v, q, i, le, re);
    assert v.pages[q].children[i..i + 2] == [v.pages[q].children[i], v.pages[q].children[i + 1]];
    forall x | x in w.pages ensures LeafFilled(w, cap, x, 0) {
      assert LeafFilled(v, cap, x, 0) || x == p;
    }
  }

  lemma MergeFills(v: View, cap: nat, q: PageId, i: nat, p: PageId)
    requires Neighbours(v, cap, q, i) && FilledBut(v, cap, p) && p in v.pages[q].children[i..i + 2]
    ensures var pages := MergedPages(v.pages, q, i);
            LeavesFilled(v.(pages := pages), cap) && (RootBranches(v) ==> RootSettles(v.(pages := pages)))
  {
    var w := v.(pages := MergedPages(v.pages, q, i));
    var l, r := v.pages[q].children[i], v.pages[q].children[i + 1];
    assert v.pages[q].children[i..i + 2] == [l, r];
    DistinctChildren(v, cap, INVALID_PAGE_ID, q, i, i + 1);
    assert LeafFilled(v, cap, l, 0) || l == p;
    assert LeafFilled(v, cap, r, 0) || r == p;
    forall x | x in w.pages ensures LeafFilled(w, cap, x, 0) {
      assert LeafFilled(v, cap, x, 0) || x == p;
    }
    if v.root == q {
      assert UpOk(v, q) && i == 0 ==> w.pages[q].children[0] == l;
    }
  }

  /** Repairing an underflown leaf fills it again. */
  lemma UnderflowFills(v: View, cap: nat, p: PageId)
    requires Inv(v, cap) && cap > 0 && p in v.pages && p != v.root && v.pages[p].Leaf? && |v.pages[p].entries| < MinKeys(cap)
    requires Repairable(v.pages, cap, p) && FilledBut(v, cap, p)
    ensures var w := v.(pages := UnderflowPages(v.pages, cap, p, v.pages[p].parent));
            LeavesFilled(w, cap) && (RootBranches(v) ==> RootSettles(w))
  {
    var i := ParentSlot(v, cap, INVALID_PAGE_ID, p);
    var q := v.pages[p].parent;
    SlotIsIndex(v, cap, p, i);
    var children := v.pages[q].children;
    if i > 0 && CanLend(v.pages, children[i - 1], cap) {
      BorrowLeftFills(v, cap, p, i);
    } else if i + 1 < |children| && CanLend(v.pages, children[i + 1], cap) {
      BorrowRightFills(v, cap, p, i);
    } else if i > 0 {
      MergeFits(v, cap, p, i, i - 1);
      MergeFindsSeparator(v, cap, q, i - 1);
      MergeFills(v, cap, q, i - 1, p);
    } else if |children| > 1 {
      MergeFits(v, cap, p, i, i);
      MergeFindsSeparator(v, cap, q, i);
      MergeFills(v, cap, q, i, p);
    }
  }

  lemma BorrowLeftFills(v: View, cap: nat, p: PageId, i: nat)
    requires Underflown(v, cap, p, i) && i > 0 && CanLend(v.pages, v.pages[v.pages[p].parent].children[i - 1], cap)
    requires FilledBut(v, cap, p)
    ensures var w := v.(pages := BorrowLeftPages(v.pages, v.pages[p].parent, i));
            LeavesFilled(w, cap) && (RootBranches(v) ==> RootBranches(w))
  {
    var q := v.pages[p].parent;
    SiblingIsLeaf(v, cap, q, i, i - 1);
    var l := v.pages[q].children[i - 1];
    var le, re := v.pages[l].entries, v.pages[p].entries;
    var le', re' := le[..|le| - 1], [le[|le| - 1]] + re;
    assert le' + re' == le + re;
    assert SizeOk(v, cap, INVALID_PAGE_ID, l);
    assert LeafFilled(v, cap, p, 1);
    ShiftFills(v, cap, q, i - 1, le', re', p);
    SameFill(ShiftView(v, q, i - 1, le', re'), v.(pages := BorrowLeftPages(v.pages, q, i)), cap);
  }

  lemma BorrowRightFills(v: View, cap: nat, p: PageId, i: nat)
    requires Underflown(v, cap, p, i) && i + 1 < |v.pages[v.pages[p].parent].children|
    requires CanLend(v.pages, v.pages[v.pages[p].parent].children[i + 1], cap) && FilledBut(v, cap, p)
    ensures var w := v.(pages := BorrowRightPages(v.pages, v.pages[p].parent, i));
            LeavesFilled(w, cap) && (RootBranches(v) ==> RootBranches(w))
  {
    var q := v.pages[p].parent;
    SiblingIsLeaf(v, cap, q, i, i + 1);
    var r := v.pages[q].children[i + 1];
    var le, re := v.pages[p].entries, v.pages[r].entries;
    var le', re' := le + [re[0]], re[1..];
    assert le' + re' == le + re;
    assert SizeOk(v, cap, INVALID_PAGE_ID, r);
    assert LeafFilled(v, cap, p, 1);
    ShiftFills(v, cap, q, i, le', re', p);
    SameFill(ShiftView(v, q, i, le', re'), v.(pages := BorrowRightPages(v.pages, q, i)), cap);
  }

  lemma SameFill(v: View, w: View, cap: nat)
    requires v.pages == w.pages && LeavesFilled(v, cap)
    ensures LeavesFilled(w, cap)
  {
    forall x | x in w.pages ensures LeafFilled(w, cap, x, 0) { assert LeafFilled(v, cap, x, 0); }
  }

  lemma CutFills(v: View, cap: nat, p: PageId, k: Key)
    requires LeavesFilled(v, cap) && IsLeaf(v.pages, p)
    ensures FilledBut(v.(pages := Without(v.pages, p, k)), cap, p)
    ensures |Without(v.pages, p, k)[p].entries| >= MinKeys(cap) || !HasSibling(v.pages, p) ==>
              LeavesFilled(v.(pages := Without(v.pages, p, k)), cap)
  {
    var w := v.(pages := Without(v.pages, p, k));
    forall x | x in w.pages ensures LeafFilled(w, cap, x, if x == p then 1 else 0) && (x != p ==> LeafFilled(w, cap, x, 0)) {
      assert LeafFilled(v, cap, x, 0);
    }
    if |w.pages[p].entries| >= MinKeys(cap) || !HasSibling(v.pages, p) {
      forall x | x in w.pages ensures LeafFilled(w, cap, x, 0) { }
    }
  }

  /** With exact separators every underflow is repairable. */
  lemma ExactIsRepairable(v: View, cap: nat, p: PageId)
    requires Inv(v, cap) && Exact(v.pages) && p in v.pages && v.pages[p].Leaf?
    ensures Repairable(v.pages, cap, p)
  {
    if p != v.root {
      var i := ParentSlot(v, cap, INVALID_PAGE_ID, p);
      var q := v.pages[p].parent;
      var j := IndexOf(v.pages[q].children, p);
      ExactFirst(v, cap, p, j);
      if j == 0 && |v.pages[q].children| > 1 {
        SiblingIsLeaf(v, cap, q, 0, 1);
        ExactFirst(v, cap, v.pages[q].children[1], 1);
      }
    } else {
      assert UpOk(v, p);
    }
  }

  // ---------- Taking a key out of its leaf ----------

  /** `k` stands in some page as the separator in front of a leaf. */
  ghost predicate IsSeparator(pages: map<PageId, Node>, k: Key) {
    exists q, i {:trigger pages[q].keys[i]} ::
      q in pages && pages[q].Internal? && 0 <= i < |pages[q].keys| && i + 1 < |pages[q].children| &&
      pages[q].keys[i] == k && IsLeaf(pages, pages[q].children[i + 1])
  }

  function KeyIndex(entries: seq<Entry>, k: Key): (r: int)
    ensures -1 <= r < |entries| && (r >= 0 ==> entries[r].key == k)
    ensures r < 0 ==> forall i :: 0 <= i < |entries| ==> entries[i].key != k
  {
    if entries == [] then -1
    else if entries[0].key == k then 0
    else var r := KeyIndex(entries[1..], k); if r < 0 then -1 else r + 1
  }

  /** The pages with the entry for `k` taken out of leaf `p`. */
  function Without(pages: map<PageId, Node>, p: PageId, k: Key): map<PageId, Node>
    requires IsLeaf(pages, p)
  {
    var i := KeyIndex(pages[p].entries, k);
    if i < 0 then pages else WithEntries(pages, p, DropAt(pages[p].entries, i))
  }

  lemma KeyAbsent(v: View, cap: nat, p: PageId, k: Key, m: map<Key, RowId>)
    requires Inv(v, cap) && Stores(v.pages, m) && IsLeaf(v.pages, p) && Within(v.spans[p], k)
    requires forall i :: 0 <= i < |v.pages[p].entries| ==> v.pages[p].entries[i].key != k
    ensures k !in m
  {
    if k in m {
      assert Entry(k, m[k]) in Pairs(v.pages);
      OwnerHoldsKey(v, cap, INVALID_PAGE_ID, p, Entry(k, m[k]));
    }
  }

  lemma DropEntry(entries: seq<Entry>, s: Span, pos: nat)
    requires LeafOk(entries, s) && pos < |entries|
    ensures LeafOk(DropAt(entries, pos), s)
    ensures forall e: Entry :: e in DropAt(entries, pos) <==> e in entries && e.key != entries[pos].key
    ensures pos > 0 ==> DropAt(entries, pos)[0] == entries[0]
    ensures KeyIndex(entries, entries[pos].key) == pos
  {
    var kept := DropAt(entries, pos);
    assert forall i :: 0 <= i < |kept| ==> kept[i] == entries[if i < pos then i else i + 1];
    forall e: Entry ensures e in kept <==> e in entries && e.key != entries[pos].key {
      DropAtMembers(entries, pos, e);
    }
  }

  /** Taking `k` out of its leaf is a map deletion, and keeps separators exact if `k` is none. */
  lemma DropsKey(v: View, cap: nat, p: PageId, k: Key, pos: nat, m: map<Key, RowId>)
    requires Inv(v, cap) && Stores(v.pages, m) && IsLeaf(v.pages, p) && Within(v.spans[p], k)
    requires pos < |v.pages[p].entries| && v.pages[p].entries[pos].key == k
    ensures var pages := v.pages[p := v.pages[p].(entries := DropAt(v.pages[p].entries, pos))];
            pages == Without(v.pages, p, k) && Inv(v.(pages := pages), cap) && Stores(pages, m - {k}) && k in m &&
            (Exact(v.pages) && !IsSeparator(v.pages, k) ==> Exact(pages))
  {
    var entries := v.pages[p].entries;
    var kept := DropAt(entries, pos);
    var w := LeafView(v, p, kept);
    assert NodeOk(v, p) && SizeOk(v, cap, INVALID_PAGE_ID, p);
    DropEntry(entries, v.spans[p], pos);
    WriteLeaf(v, cap, p, kept);
    assert entries[pos] in v.pages[p].entries;
    assert entries[pos] in Pairs(v.pages);
    forall e: Entry ensures e in Pairs(w.pages) <==> e.key in m - {k} && (m - {k})[e.key] == e.value {
      DropsPair(v, cap, p, k, kept, e);
    }
    if Exact(v.pages) && !IsSeparator(v.pages, k) {
      DropKeepsFirst(v, cap, p, pos);
      WriteLeafExact(v, cap, INVALID_PAGE_ID, p, kept);
    }
  }

  lemma DropsPair(v: View, cap: nat, p: PageId, k: Key, kept: seq<Entry>, e: Entry)
    requires Inv(v, cap) && IsLeaf(v.pages, p) && Within(v.spans[p], k)
    requires forall f: Entry :: f in kept <==> f in v.pages[p].entries && f.key != k
    ensures e in Pairs(LeafView(v, p, kept).pages) <==> e in Pairs(v.pages) && e.key != k
  {
    var w := LeafView(v, p, kept);
    if e in Pairs(w.pages) {
      var x :| x in w.pages && w.pages[x].Leaf? && e in w.pages[x].entries;
      assert e in v.pages[x].entries;
      if x != p && e.key == k {
        assert NodeOk(v, x);
        var i :| 0 <= i < |v.pages[x].entries| && v.pages[x].entries[i] == e;
        OneOwner(v, cap, INVALID_PAGE_ID, p, x, k);
      }
    }
    if e in Pairs(v.pages) && e.key != k {
      var x :| x in v.pages && v.pages[x].Leaf? && e in v.pages[x].entries;
      assert e in w.pages[x].entries;
    }
  }

  /** A key that is no separator is not the first key of a leaf that has one. */
  lemma DropKeepsFirst(v: View, cap: nat, p: PageId, pos: nat)
    requires Inv(v, cap) && Exact(v.pages) && IsLeaf(v.pages, p) && pos < |v.pages[p].entries|
    requires !IsSeparator(v.pages, v.pages[p].entries[pos].key)
    ensures var q := v.pages[p].parent;
            p != v.root && q in v.pages && v.pages[q].Internal? && v.pages[q].children != [] && v.pages[q].children[0] != p ==> pos > 0
  {
    if p != v.root {
      var q := v.pages[p].parent;
      var i := ParentSlot(v, cap, INVALID_PAGE_ID, p);
      ExactFirst(v, cap, p, i);
      assert i > 0 ==> v.pages[q].keys[i - 1] == v.pages[p].entries[0].key;
    }
  }

  // ---------- The whole deletion ----------

  /** The pages and root after `updateRootIfEmpty`. */
  function Collapse(pages: map<PageId, Node>, root: PageId): (map<PageId, Node>, PageId) {
    if root in pages && pages[root].Internal? && pages[root].keys == [] && pages[root].children != [] then
      var c := pages[root].children[0];
      ((if c in pages then pages[c := pages[c].(parent := INVALID_PAGE_ID)] else pages) - {root}, c)
    else (pages, root)
  }

  lemma CollapseTheorem(v: View, cap: nat) returns (w: View)
    requires Inv(v, cap)
    ensures (w.pages, w.root) == Collapse(v.pages, v.root) && Inv(w, cap) && Pairs(w.pages) == Pairs(v.pages)
    ensures Exact(v.pages) ==> Exact(w.pages)
    ensures (RootSettles(v) ==> RootBranches(w)) && (LeavesFilled(v, cap) ==> LeavesFilled(w, cap))
  {
    w := v;
    assert NodeOk(v, v.root);
    if v.pages[v.root].Internal? && v.pages[v.root].keys == [] {
      assert ChildOk(v, v.root, 0);
      CollapseKeepsInv(v, cap);
      w := CollapseView(v);
      if LeavesFilled(v, cap) {
        forall x | x in w.pages ensures LeafFilled(w, cap, x, 0) { assert LeafFilled(v, cap, x, 0); }
      }
    }
  }

  lemma CollapseKeepsDangling(pages: map<PageId, Node>, root: PageId)
    requires Dangling(pages)
    ensures Dangling(Collapse(pages, root).0)
  {
    var q, c :| q in pages && pages[q].Internal? && pages[q].keys != [] && c in pages[q].children && c !in pages;
    var after := Collapse(pages, root).0;
    assert q in after && c in after[q].children && c !in after;
  }

  /** A deletion of `k` will find any separator it has to drop. */
  ghost predicate SafeToRemove(pages: map<PageId, Node>, cap: nat, k: Key) {
    forall p {:trigger IsLeaf(pages, p)} ::
      IsLeaf(pages, p) && KeyIndex(pages[p].entries, k) >= 0 ==> Repairable(Without(pages, p, k), cap, p)
  }

  /** The pages and root after `remove` has found `k` in leaf `p`. */
  function RemovePages(pages: map<PageId, Node>, root: PageId, cap: nat, p: PageId, k: Key): (map<PageId, Node>, PageId)
    requires IsLeaf(pages, p) && cap > 0
  {
    var cut := Without(pages, p, k);
    var q := cut[p].parent;
    var repaired := if q != INVALID_PAGE_ID && |cut[p].entries| < MinKeys(cap) then UnderflowPages(cut, cap, p, q) else cut;
    Collapse(repaired, root)
  }

  /** Deleting a stored key: a valid tree without exactly that key if and only if the deletion is
      safe, and then separators that were exact stay exact, the root keeps a key or gives way to a leaf, and
      leaves with a sibling stay half full. */
  lemma RemoveTheorem(v: View, cap: nat, p: PageId, k: Key, pos: nat, m: map<Key, RowId>) returns (w: View)
    requires Inv(v, cap) && cap > 0 && Stores(v.pages, m) && IsLeaf(v.pages, p) && Within(v.spans[p], k)
    requires pos < |v.pages[p].entries| && v.pages[p].entries[pos].key == k
    ensures SafeToRemove(v.pages, cap, k) ==>
              (w.pages, w.root) == RemovePages(v.pages, v.root, cap, p, k) && Inv(w, cap) && Stores(w.pages, m - {k}) &&
              (Exact(v.pages) && !IsSeparator(v.pages, k) ==> Exact(w.pages)) && (Shaped(v, cap) ==> Shaped(w, cap))
    ensures !SafeToRemove(v.pages, cap, k) ==> Dangling(RemovePages(v.pages, v.root, cap, p, k).0)
  {
    DropsKey(v, cap, p, k, pos, m);
    var cut := v.(pages := Without(v.pages, p, k));
    SafeAtOwner(v, cap, p, k);
    assert UpOk(v, p);
    w := cut;
    if v.pages[p].parent != INVALID_PAGE_ID && |cut.pages[p].entries| < MinKeys(cap) {
      w := UnderflowTheorem(cut, cap, p);
    }
    if SafeToRemove(v.pages, cap, k) {
      if Shaped(v, cap) { RepairedShape(v, w, cap, p, k); }
      SamePairsStore(cut.pages, w.pages, m - {k});
      w := CollapseTheorem(w, cap);
      SamePairsStore(cut.pages, w.pages, m - {k});
    } else {
      CollapseKeepsDangling(UnderflowPages(cut.pages, cap, p, cut.pages[p].parent), v.root);
    }
  }

  lemma RepairedShape(v: View, w: View, cap: nat, p: PageId, k: Key)
    requires Inv(v, cap) && cap > 0 && IsLeaf(v.pages, p) && Shaped(v, cap) && Repairable(Without(v.pages, p, k), cap, p)
    requires Inv(v.(pages := Without(v.pages, p, k)), cap)
    requires var cut := Without(v.pages, p, k);
             w.root == v.root &&
             w.pages == if cut[p].parent != INVALID_PAGE_ID && |cut[p].entries| < MinKeys(cap)
                        then UnderflowPages(cut, cap, p, cut[p].parent) else cut
    ensures RootSettles(w) && LeavesFilled(w, cap)
  {
    hide UnderflowPages, Repairable;
    var cut := v.(pages := Without(v.pages, p, k));
    CutFills(v, cap, p, k);
    assert UpOk(v, p) && UpOk(v, v.root);
    if cut.pages[p].parent != INVALID_PAGE_ID && |cut.pages[p].entries| < MinKeys(cap) {
      UnderflowFills(cut, cap, p);
      SameFill(cut.(pages := w.pages), w, cap);
    } else {
      SameFill(cut, w, cap);
    }
  }

  lemma SafeAtOwner(v: View, cap: nat, p: PageId, k: Key)
    requires Inv(v, cap) && IsLeaf(v.pages, p) && Within(v.spans[p], k) && KeyIndex(v.pages[p].entries, k) >= 0
    ensures SafeToRemove(v.pages, cap, k) <==> Repairable(Without(v.pages, p, k), cap, p)
  {
    forall x | IsLeaf(v.pages, x) && KeyIndex(v.pages[x].entries, k) >= 0 ensures x == p {
      assert NodeOk(v, x);
      OneOwner(v, cap, INVALID_PAGE_ID, p, x, k);
    }
  }

  /** Exact separators make every deletion of a stored key that is no separator safe. */
  lemma ExactRemovesSafely(v: View, cap: nat, p: PageId, k: Key, pos: nat, m: map<Key, RowId>)
    requires Inv(v, cap) && Stores(v.pages, m) && Exact(v.pages) && IsLeaf(v.pages, p) && Within(v.spans[p], k)
    requires pos < |v.pages[p].entries| && v.pages[p].entries[pos].key == k && !IsSeparator(v.pages, k)
    ensures SafeToRemove(v.pages, cap, k)
  {
    DropsKey(v, cap, p, k, pos, m);
    SafeAtOwner(v, cap, p, k);
    ExactIsRepairable(v.(pages := Without(v.pages, p, k)), cap, p);
  }

  lemma KeyPresent(v: View, p: PageId, pos: nat, m: map<Key, RowId>)
    requires Stores(v.pages, m) && IsLeaf(v.pages, p) && pos < |v.pages[p].entries|
    ensures v.pages[p].entries[pos].key in m
  {
    assert v.pages[p].entries[pos] in v.pages[p].entries;
    assert v.pages[p].entries[pos] in Pairs(v.pages);
  }

  lemma SlotsDistinct(v: View, cap: nat, q: PageId)
    requires Inv(v, cap)
    ensures IsInternal(v.pages, q) ==>
              forall i :: 0 <= i < |v.pages[q].children| - 1 ==> v.pages[q].children[i] != v.pages[q].children[i + 1]
  {
    if IsInternal(v.pages, q) {
      forall i | 0 <= i < |v.pages[q].children| - 1 ensures v.pages[q].children[i] != v.pages[q].children[i + 1] {
        DistinctChildren(v, cap, INVALID_PAGE_ID, q, i, i + 1);
      }
    }
  }

  /** A deletion allocates no page. */
  lemma OnlyOldPages(pages: map<PageId, Node>, root: PageId, cap: nat, p: PageId, k: Key)
    requires IsLeaf(pages, p) && cap > 0
    ensures RemovePages(pages, root, cap, p, k).0.Keys <= pages.Keys
  {
    hide UnderflowPages, Without, Collapse;
    var cut := Without(pages, p, k);
    CutKeys(pages, p, k);
    var q := cut[p].parent;
    UnderflowKeys(cut, cap, p, q);
    CollapseKeys(cut, root);
    CollapseKeys(UnderflowPages(cut, cap, p, q), root);
  }

  lemma CutKeys(pages: map<PageId, Node>, p: PageId, k: Key)
    requires IsLeaf(pages, p)
    ensures Without(pages, p, k).Keys == pages.Keys && p in Without(pages, p, k)
  {
  }

  lemma CollapseKeys(pages: map<PageId, Node>, root: PageId)
    ensures Collapse(pages, root).0.Keys <= pages.Keys
  {
  }

  lemma UnderflowKeys(pages: map<PageId, Node>, cap: nat, p: PageId, q: PageId)
    requires cap > 0
    ensures UnderflowPages(pages, cap, p, q).Keys <= pages.Keys
  {
    hide IndexOf, DropSeparator;
  }
}
