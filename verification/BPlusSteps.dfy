/**
 * One split step of an insertion as a whole: splitting an overfull page and telling its parent, or
 * growing a new root above it, leads to the tree invariant with the excess one level up, keeps the
 * pages half full and keeps the separators above the leaves exact.
 */
module BPlusSteps {
  import opened BPlusPages
  import opened BPlusInsert
  import opened BPlusBalance

  /** What a split step from `v` to `w` keeps. */
  ghost predicate Keeps(v: View, w: View, cap: nat) {
    (Balanced(v, cap) ==> Balanced(w, cap)) && (Shaped(v, cap) ==> Shaped(w, cap)) && (Exact(v.pages) ==> Exact(w.pages))
  }

  /** What an insertion needs to know of the page it is about to split. */
  lemma OverfullPage(v: View, cap: nat, p: PageId)
    requires InvOver(v, cap, p) && p in v.pages
    ensures Size(v.pages[p]) <= cap + 1
    ensures v.pages[p].Internal? ==> |v.pages[p].children| == |v.pages[p].keys| + 1
    ensures v.pages[p].parent == INVALID_PAGE_ID <==> p == v.root
    ensures v.pages[p].parent != INVALID_PAGE_ID ==> v.pages[p].parent in v.pages
  {
    assert NodeOk(v, p) && SizeOk(v, cap, p, p) && UpOk(v, p);
  }

  /** The pages above the level of `q`: fewer at every step up, so the recursion ends. */
  ghost function Higher(spans: map<PageId, Span>, q: PageId): set<PageId>
    requires q in spans
  {
    set p | p in spans && spans[p].level > spans[q].level
  }

  lemma InnerInternalSplit(v: View, cap: nat, p: PageId, added: PageId) returns (slot: nat, w: View)
    requires InvOver(v, cap, p) && cap > 0 && p in v.pages && p != v.root
    requires v.pages[p].Internal? && |v.pages[p].keys| == cap + 1 && |v.pages[p].children| == |v.pages[p].keys| + 1
    requires added !in v.pages && added != INVALID_PAGE_ID
    ensures var q := v.pages[p].parent; var pages := SplitInternalPages(v.pages, p, added);
            q in v.pages && v.pages[q].Internal? && slot < |v.pages[q].children| &&
            IsChildPos(v.pages[q].keys, MidKey(v.pages[p]), slot) &&
            q in pages && pages[q] == v.pages[q] && pages[p].parent == q &&
            w == View(pages[q := AddChild(v.pages[q], slot, MidKey(v.pages[p]), added)], v.root, w.spans, v.chain) &&
            InvOver(w, cap, q) && Keeps(v, w, cap) &&
            p in v.spans && q in w.spans && Higher(w.spans, q) < Higher(v.spans, p)
  {
    var q := v.pages[p].parent;
    slot := ParentSlot(v, cap, p, p);
    assert NodeOk(v, p);
    w := SplitInternalView(v, p, added, slot);
    SplitInternalKeepsInv(v, cap, p, added, slot);
    SplitInternalShape(v, cap, p, added, slot);
    SplitInternalLeft(v, cap, p, added, slot);
    PositionOfSlot(v, q, slot, MidKey(v.pages[p]));
    if Balanced(v, cap) { SplitInternalBalance(v, cap, p, added, slot); }
    if Shaped(v, cap) { SplitInternalFilled(v, cap, p, added, slot); }
    if Exact(v.pages) { SplitInternalExact(v, cap, p, added, slot); }
    assert q in Higher(v.spans, p);
  }

  lemma RootInternalSplit(v: View, cap: nat, added: PageId, r: PageId) returns (w: View)
    requires InvOver(v, cap, v.root) && cap > 0 && v.pages[v.root].Internal? && |v.pages[v.root].keys| == cap + 1
    requires |v.pages[v.root].children| == |v.pages[v.root].keys| + 1
    requires added !in v.pages && r !in v.pages && added != r && INVALID_PAGE_ID !in {added, r}
    ensures w == View(NewRootPages(SplitInternalPages(v.pages, v.root, added), v.root, MidKey(v.pages[v.root]), added, r),
                      r, w.spans, v.chain)
    ensures Inv(w, cap) && Keeps(v, w, cap)
  {
    var g := GrowView(v, r);
    GrowKeepsInv(v, cap, v.root, r);
    assert NodeOk(g, v.root);
    w := SplitInternalView(g, v.root, added, 0);
    SplitInternalKeepsInv(g, cap, v.root, added, 0);
    SplitInternalShape(g, cap, v.root, added, 0);
    Settle(w, cap, r);
    NewRootAfterInternalSplit(v, cap, added, r);
    if Balanced(v, cap) {
      GrowBalance(v, cap, r);
      SplitInternalBalance(g, cap, v.root, added, 0);
    }
    if Shaped(v, cap) {
      GrowFilled(v, cap, v.root, r);
      SplitInternalFilled(g, cap, v.root, added, 0);
    }
    if Exact(v.pages) {
      GrowExact(v, cap, v.root, r);
      SplitInternalExact(g, cap, v.root, added, 0);
    }
  }

  lemma InnerLeafSplit(v: View, cap: nat, p: PageId, added: PageId) returns (slot: nat, w: View)
    requires InvOver(v, cap, p) && cap > 0 && p in v.pages && p != v.root
    requires v.pages[p].Leaf? && |v.pages[p].entries| == cap + 1
    requires added !in v.pages && added != INVALID_PAGE_ID
    ensures var q := v.pages[p].parent; var pages := SplitLeafPages(v.pages, p, added);
            q in v.pages && v.pages[q].Internal? && slot < |v.pages[q].children| &&
            IsChildPos(v.pages[q].keys, MidKey(v.pages[p]), slot) &&
            q in pages && pages[q] == v.pages[q] && p in pages && pages[p].parent == q &&
            w == View(pages[q := AddChild(v.pages[q], slot, MidKey(v.pages[p]), added)], v.root, w.spans, w.chain) &&
            InvOver(w, cap, q) && Keeps(v, w, cap)
  {
    slot := ParentSlot(v, cap, p, p);
    assert p in v.chain;
    var i :| 0 <= i < |v.chain| && v.chain[i] == p;
    w := SplitLeafView(v, p, added, i, slot);
    SplitLeafKeepsInv(v, cap, p, added, i, slot);
    SplitLeafSpans(v, cap, p, added, i, slot);
    PositionOfSlot(v, v.pages[p].parent, slot, MidKey(v.pages[p]));
    if Balanced(v, cap) { SplitLeafBalance(v, cap, p, added, i, slot); }
    if Shaped(v, cap) { SplitLeafFilled(v, cap, p, added, i, slot); }
    if Exact(v.pages) { SplitLeafExact(v, cap, p, added, i, slot); }
  }

  lemma RootLeafSplit(v: View, cap: nat, added: PageId, r: PageId) returns (w: View)
    requires InvOver(v, cap, v.root) && cap > 0 && v.pages[v.root].Leaf? && |v.pages[v.root].entries| == cap + 1
    requires added !in v.pages && r !in v.pages && added != r && INVALID_PAGE_ID !in {added, r}
    ensures w == View(NewRootPages(SplitLeafPages(v.pages, v.root, added), v.root, MidKey(v.pages[v.root]), added, r),
                      r, w.spans, w.chain)
    ensures Inv(w, cap) && Keeps(v, w, cap)
  {
    var g := GrowView(v, r);
    GrowKeepsInv(v, cap, v.root, r);
    assert v.root in v.chain;
    var i :| 0 <= i < |v.chain| && v.chain[i] == v.root;
    RootIsOnlyLeaf(v, cap, i);
    w := SplitLeafView(g, v.root, added, i, 0);
    SplitLeafKeepsInv(g, cap, v.root, added, i, 0);
    Settle(w, cap, r);
    NewRootAfterLeafSplit(v, added, r, i);
    if Balanced(v, cap) {
      GrowBalance(v, cap, r);
      SplitLeafBalance(g, cap, v.root, added, i, 0);
    }
    if Shaped(v, cap) {
      GrowFilled(v, cap, v.root, r);
      SplitLeafFilled(g, cap, v.root, added, i, 0);
    }
    if Exact(v.pages) {
      GrowExact(v, cap, v.root, r);
      SplitLeafExact(g, cap, v.root, added, i, 0);
    }
  }

  /** A root that is a leaf ends the chain. */
  lemma RootIsOnlyLeaf(v: View, cap: nat, i: nat)
    requires InvOver(v, cap, v.root) && v.pages[v.root].Leaf? && i < |v.chain| && v.chain[i] == v.root
    ensures v.pages[v.root].next == INVALID_PAGE_ID
  {
    assert LinkOk(v, i);
    if i + 1 < |v.chain| {
      InnerLeafBounded(v, cap, v.root, i);
    }
  }

  lemma InnerLeafBounded(v: View, cap: nat, over: PageId, i: nat)
    requires InvOver(v, cap, over) && i + 1 < |v.chain|
    ensures v.chain[i] in v.pages && v.spans[v.chain[i]].hi != PosInf
  {
    assert LinkOk(v, i) && LinkOk(v, i + 1) && NodeOk(v, v.chain[i + 1]);
  }

  /** `after` is `before` with `k` mapped to `value`: still sorted, at most one entry longer. */
  ghost predicate Puts(before: seq<Entry>, after: seq<Entry>, s: Span, k: Key, value: RowId) {
    LeafOk(after, s) && |before| <= |after| <= |before| + 1 && after != [] &&
    (forall e: Entry :: e in after <==> e == Entry(k, value) || (e in before && e.key != k)) &&
    (before != [] && before[0].key <= k ==> after[0].key == before[0].key)
  }

  lemma UpdatePuts(before: seq<Entry>, s: Span, k: Key, value: RowId, pos: nat)
    requires LeafOk(before, s) && pos < |before| && before[pos].key == k
    ensures Puts(before, before[pos := Entry(k, value)], s, k, value)
  {
    var after := before[pos := Entry(k, value)];
    assert after[pos] == Entry(k, value);
    forall i | 0 <= i < |before| && i != pos ensures before[i] in after { assert after[i] == before[i]; }
  }

  lemma InsertPuts(before: seq<Entry>, s: Span, k: Key, value: RowId, pos: nat)
    requires LeafOk(before, s) && Within(s, k) && pos <= |before|
    requires (forall i :: 0 <= i < pos ==> before[i].key < k) && (forall i :: pos <= i < |before| ==> k < before[i].key)
    ensures Puts(before, InsertAt(before, pos, Entry(k, value)), s, k, value)
  {
    var after := InsertAt(before, pos, Entry(k, value));
    forall e: Entry ensures e in after <==> e == Entry(k, value) || e in before {
      InsertKeepsMembers(before, pos, Entry(k, value), e);
    }
    assert forall i :: 0 <= i < |after| ==> after[i] == if i < pos then before[i] else if i == pos then Entry(k, value) else before[i - 1];
  }

  /** Writing a leaf of a valid tree: the invariant up to one excess key, and a map update. */
  lemma LeafWritten(v: View, cap: nat, p: PageId, after: seq<Entry>, k: Key, value: RowId, m: map<Key, RowId>)
    requires Inv(v, cap) && Stores(v.pages, m) && p in v.pages && v.pages[p].Leaf? && Within(v.spans[p], k)
    requires Puts(v.pages[p].entries, after, v.spans[p], k, value)
    ensures InvOver(LeafView(v, p, after), cap, p) && |after| <= cap + 1
    ensures |after| <= cap ==> Inv(LeafView(v, p, after), cap)
    ensures Stores(LeafView(v, p, after).pages, m[k := value])
    ensures Keeps(v, LeafView(v, p, after), cap)
  {
    var w := LeafView(v, p, after);
    assert NodeOk(v, p) && SizeOk(v, cap, INVALID_PAGE_ID, p);
    WriteLeaf(v, cap, p, after);
    forall e: Entry ensures e in Pairs(w.pages) <==> e.key in m[k := value] && m[k := value][e.key] == e.value {
      LeafWrittenPair(v, cap, p, after, k, value, e);
    }
    if Balanced(v, cap) {
      forall x | x in w.pages ensures FullEnough(w, cap, x) { assert FullEnough(v, cap, x); }
    }
    if Shaped(v, cap) {
      forall x | x in w.pages ensures LeafFilled(w, cap, x, 0) { assert LeafFilled(v, cap, x, 0); }
    }
    if Exact(v.pages) {
      if p != v.root {
        var i := ParentSlot(v, cap, INVALID_PAGE_ID, p);
        if v.pages[v.pages[p].parent].children[0] != p {
          InsertedKeyNotFirst(v, cap, p, k);
        }
      }
      WriteLeafExact(v, cap, INVALID_PAGE_ID, p, after);
    }
  }

  lemma LeafWrittenPair(v: View, cap: nat, p: PageId, after: seq<Entry>, k: Key, value: RowId, e: Entry)
    requires Inv(v, cap) && p in v.pages && v.pages[p].Leaf? && Within(v.spans[p], k)
    requires forall f: Entry :: f in after <==> f == Entry(k, value) || (f in v.pages[p].entries && f.key != k)
    ensures e in Pairs(LeafView(v, p, after).pages) <==> if e.key == k then e.value == value else e in Pairs(v.pages)
  {
    var w := LeafView(v, p, after);
    if e in Pairs(w.pages) {
      var x :| x in w.pages && w.pages[x].Leaf? && e in w.pages[x].entries;
      if x != p {
        assert e in v.pages[x].entries && e in Pairs(v.pages);
        OwnerOnly(v, cap, p, x, e, k);
      } else if e.key != k {
        assert e in v.pages[p].entries;
      }
    }
    if e == Entry(k, value) {
      assert e in w.pages[p].entries;
    }
    if e in Pairs(v.pages) && e.key != k {
      var x :| x in v.pages && v.pages[x].Leaf? && e in v.pages[x].entries;
      assert e in w.pages[x].entries;
    }
  }

  /** A leaf other than the owner of `k` holds no entry for `k`. */
  lemma OwnerOnly(v: View, cap: nat, p: PageId, x: PageId, e: Entry, k: Key)
    requires Inv(v, cap) && p in v.pages && v.pages[p].Leaf? && Within(v.spans[p], k)
    requires x in v.pages && v.pages[x].Leaf? && e in v.pages[x].entries && x != p
    ensures e.key != k
  {
    assert NodeOk(v, x);
    var i :| 0 <= i < |v.pages[x].entries| && v.pages[x].entries[i] == e;
    if e.key == k { OneOwner(v, cap, INVALID_PAGE_ID, p, x, k); }
  }
}
