/**
 * The generic B+ tree: search, insertion with recursive splits, range search and deletion with
 * borrowing, merging and root collapse.
 */
module BPlusTree {
  import opened BPlusPages
  import opened BPlusInsert
  import opened BPlusBalance
  import opened BPlusSteps
  import opened BPlusRange
  import opened BPlusDelete
  import opened BPlusRemove

  class GenericBPlusTree {
    const maxKeys: nat
    /** The tree's pages in the buffer pool; page ids are allocated upwards and never reused. */
    var pages: map<PageId, Node>
    var root: PageId
    var nextId: PageId

    ghost var spans: map<PageId, Span>
    ghost var chain: seq<PageId>
    /** What the tree stores, as a map. */
    ghost var contents: map<Key, RowId>

    ghost function V(): View
      reads this
    {
      View(pages, root, spans, chain)
    }

    ghost predicate Allocated()
      reads this
    {
      nextId > INVALID_PAGE_ID && forall p :: p in pages ==> p < nextId
    }

    ghost predicate Valid()
      reads this
    {
      maxKeys > 0 && Allocated() && Inv(V(), maxKeys) && Shaped(V(), maxKeys) && Stores(pages, contents)
    }

    constructor (maxKeysPerPage: nat, firstFreePage: PageId)
      requires maxKeysPerPage > 0 && firstFreePage > INVALID_PAGE_ID
      ensures Valid() && contents == map[] && maxKeys == maxKeysPerPage
      ensures Balanced(V(), maxKeys) && Exact(pages)
    {
      maxKeys := maxKeysPerPage;
      root := firstFreePage;
      nextId := firstFreePage + 1;
      pages := map[firstFreePage := Leaf([], INVALID_PAGE_ID, INVALID_PAGE_ID, INVALID_PAGE_ID)];
      spans := map[firstFreePage := Span(NegInf, PosInf, 0)];
      chain := [firstFreePage];
      contents := map[];
      new;
      assert FullEnough(V(), maxKeys, root);
      assert LeafFilled(V(), maxKeys, root, 0);
      assert NodeOk(V(), root) && UpOk(V(), root) && LinkOk(V(), 0) && SizeOk(V(), maxKeys, INVALID_PAGE_ID, root);
    }

    // ---------- Lookup ----------

    static method FindChildPosition(keys: seq<Key>, k: Key) returns (pos: nat)
      ensures pos <= |keys| && (forall i :: 0 <= i < pos ==> keys[i] <= k)
      ensures pos < |keys| ==> k < keys[pos]
    {
      pos := 0;
      for i := 0 to |keys|
        invariant pos == i && forall j :: 0 <= j < pos ==> keys[j] <= k
      {
        if k < keys[i] {
          break;
        }
        pos := i + 1;
      }
    }

    static method FindKeyPositionInLeaf(entries: seq<Entry>, k: Key) returns (pos: nat)
      requires SortedEntries(entries)
      ensures pos <= |entries|
      ensures forall i :: 0 <= i < pos ==> entries[i].key < k
      ensures forall i :: pos <= i < |entries| ==> k <= entries[i].key
    {
      var left, right := 0, |entries|;
      while left < right
        invariant 0 <= left <= right <= |entries|
        invariant forall i :: 0 <= i < left ==> entries[i].key < k
        invariant forall i :: right <= i < |entries| ==> k <= entries[i].key
      {
        var mid := (left + right) / 2;
        if entries[mid].key < k {
          left := mid + 1;
        } else {
          right := mid;
        }
      }
      pos := left;
    }

    method FindLeafPage(k: Key) returns (p: PageId)
      requires Valid()
      ensures p in pages && pages[p].Leaf? && Within(spans[p], k)
    {
      p := root;
      while pages[p].Internal?
        invariant p in pages && Within(spans[p], k)
        decreases spans[p].level
      {
        assert NodeOk(V(), p);
        var pos := FindChildPosition(pages[p].keys, k);
        assert ChildOk(V(), p, pos);
        p := pages[p].children[pos];
      }
    }

    method Search(k: Key) returns (found: bool, value: RowId)
      requires Valid()
      ensures found <==> k in contents
      ensures found ==> value == contents[k]
    {
      assert k in contents ==> Entry(k, contents[k]) in Pairs(pages);
      var p := FindLeafPage(k);
      var entries := pages[p].entries;
      assert NodeOk(V(), p);
      var pos := FindKeyPositionInLeaf(entries, k);
      if pos < |entries| && entries[pos].key == k {
        found, value := true, entries[pos].value;
        assert entries[pos] in pages[p].entries;
        assert entries[pos] in Pairs(pages);
      } else {
        found, value := false, 0;
        forall v: RowId ensures Entry(k, v) !in Pairs(pages) {
          OwnerHoldsKey(V(), maxKeys, INVALID_PAGE_ID, p, Entry(k, v));
        }
      }
    }

    // ---------- Insertion ----------

    method SplitLeafNode(p: PageId) returns (added: PageId, middleKey: Key)
      requires p in pages && pages[p].Leaf? && pages[p].entries != []
      requires Allocated() && INVALID_PAGE_ID !in pages
      modifies this`pages, this`nextId
      ensures added == old(nextId) && nextId == old(nextId) + 1 && Allocated()
      ensures pages == SplitLeafPages(old(pages), p, added) && middleKey == MidKey(old(pages[p]))
      ensures p in pages && pages[p].parent == old(pages[p].parent) && added in pages
    {
      var n := pages[p];
      added := nextId;
      nextId := nextId + 1;
      var mid := |n.entries| / 2;
      var leftEntries, rightEntries := n.entries[..mid], n.entries[mid..];
      middleKey := rightEntries[0].key;
      pages := pages[added := Leaf(rightEntries, n.parent, n.next, p)];
      pages := pages[p := n.(entries := leftEntries, next := added)];
      if n.next != INVALID_PAGE_ID && n.next in pages && pages[n.next].Leaf? {
        pages := pages[n.next := pages[n.next].(prev := added)];
      }
    }

    method SplitInternalNode(p: PageId) returns (added: PageId, middleKey: Key)
      requires p in pages && pages[p].Internal? && pages[p].keys != []
      requires |pages[p].children| == |pages[p].keys| + 1
      requires Allocated() && INVALID_PAGE_ID !in pages
      requires forall c :: c in pages[p].children ==> c in pages && c != p && pages[c].parent == p
      modifies this`pages, this`nextId
      ensures added == old(nextId) && nextId == old(nextId) + 1 && Allocated()
      ensures pages == SplitInternalPages(old(pages), p, added) && middleKey == MidKey(old(pages[p]))
    {
      var n := pages[p];
      added := nextId;
      nextId := nextId + 1;
      var mid := |n.keys| / 2;
      middleKey := n.keys[mid];
      var kept, moved := n.children[..mid + 1], n.children[mid + 1..];
      pages := pages[added := Internal(n.keys[mid + 1..], moved, n.parent)];
      pages := pages[p := n.(keys := n.keys[..mid], children := kept)];
      ghost var split := pages;
      // The children that stay are written back with the parent they already have.
      SetParent(kept[1..], p);
      ReparentSame(split, kept[1..], p);
      SetParent(moved, added);
    }

    /** Writes the parent page into every one of the children. */
    method SetParent(children: seq<PageId>, parent: PageId)
      requires forall c :: c in children ==> c in pages
      modifies this`pages
      ensures pages == Reparent(old(pages), children, parent)
    {
      for i := 0 to |children|
        invariant pages == Reparent(old(pages), children[..i], parent)
      {
        assert children[i] in children && children[..i + 1] == children[..i] + [children[i]];
        pages := pages[children[i] := pages[children[i]].(parent := parent)];
      }
      assert children[..|children|] == children;
    }

    method CreateNewRoot(left: PageId, key: Key, right: PageId) returns (r: PageId)
      requires left in pages && right in pages && Allocated()
      modifies this`pages, this`nextId
      ensures r == old(nextId) && nextId == old(nextId) + 1 && Allocated()
      ensures pages == NewRootPages(old(pages), left, key, right, r) && Pairs(pages) == old(Pairs(pages))
    {
      r := nextId;
      nextId := nextId + 1;
      pages := pages[r := Internal([key], [left, right], INVALID_PAGE_ID)];
      pages := pages[left := pages[left].(parent := r)];
      pages := pages[right := pages[right].(parent := r)];
      SameEntriesSamePairs(old(pages), pages);
    }

    /** The tree as it will be once page `q` has received `right` at position `pos`. */
    ghost function Pending(q: PageId, pos: nat, key: Key, right: PageId): View
      requires q in pages && pages[q].Internal? && pos <= |pages[q].keys| && pos < |pages[q].children|
      reads this
    {
      V().(pages := pages[q := AddChild(pages[q], pos, key, right)])
    }

    ghost predicate IsPending(q: PageId, pos: nat, key: Key, right: PageId)
      reads this
    {
      q in pages && pages[q].Internal? && IsChildPos(pages[q].keys, key, pos) && pos < |pages[q].children| &&
      Allocated() && right < nextId && InvOver(Pending(q, pos, key, right), maxKeys, q)
    }

    method InsertIntoParent(q: PageId, key: Key, right: PageId, ghost pos: nat)
      requires maxKeys > 0 && IsPending(q, pos, key, right)
      modifies this`pages, this`nextId, this`root, this`spans
      ensures Inv(V(), maxKeys) && Allocated() && Pairs(pages) == old(Pairs(pages))
      ensures old(Balanced(Pending(q, pos, key, right), maxKeys)) ==> Balanced(V(), maxKeys)
      ensures old(Shaped(Pending(q, pos, key, right), maxKeys)) ==> Shaped(V(), maxKeys)
      ensures old(Exact(Pending(q, pos, key, right).pages)) ==> Exact(pages)
      decreases Higher(spans, q), 1
    {
      hide PagesOk, ChainOk, HalfFull, LeavesFilled, Exact, RootBranches, InternalOk;
      var at := FindChildPosition(pages[q].keys, key);
      PositionUnique(pages[q].keys, key, pos, at);
      ghost var v := Pending(q, pos, key, right);
      SameEntriesSamePairs(pages, v.pages);
      pages := pages[q := AddChild(pages[q], at, key, right)];
      assert V() == v;
      if |pages[q].keys| <= maxKeys {
        Settle(v, maxKeys, q);
        return;
      }
      SplitOverfullParent(q);
    }

    /** The tail of `insertIntoParent`: a page with one key too many is split, and the middle key goes up. */
    method SplitOverfullParent(q: PageId)
      requires maxKeys > 0 && InvOver(V(), maxKeys, q) && Allocated() && q in pages && pages[q].Internal? && |pages[q].keys| > maxKeys
      modifies this`pages, this`nextId, this`root, this`spans
      ensures Inv(V(), maxKeys) && Allocated() && Pairs(pages) == old(Pairs(pages))
      ensures old(Balanced(V(), maxKeys)) ==> Balanced(V(), maxKeys)
      ensures old(Shaped(V(), maxKeys)) ==> Shaped(V(), maxKeys)
      ensures old(Exact(pages)) ==> Exact(pages)
      decreases Higher(spans, q), 0
    {
      hide PagesOk, ChainOk, HalfFull, LeavesFilled, Exact, RootBranches, Pairs, IsChildPos, Higher, SplitInternalPages, NewRootPages, MidKey;
      ghost var v := V();
      OverfullPage(v, maxKeys, q);
      var added, middleKey := SplitInternal(q);
      var grandParent := pages[q].parent;
      if grandParent == INVALID_PAGE_ID {
        root := CreateNewRoot(q, middleKey, added);
        ghost var w := RootInternalSplit(v, maxKeys, added, root);
        spans := w.spans;
        assert V() == w;
      } else {
        ghost var slot, w := InnerInternalSplit(v, maxKeys, q, added);
        spans := w.spans;
        assert Pending(grandParent, slot, middleKey, added) == w;
        InsertIntoParent(grandParent, middleKey, added, slot);
      }
    }

    method SplitInternal(p: PageId) returns (added: PageId, middleKey: Key)
      requires InvOver(V(), maxKeys, p) && Allocated() && p in pages && pages[p].Internal? && |pages[p].keys| == maxKeys + 1
      requires |pages[p].children| == |pages[p].keys| + 1
      modifies this`pages, this`nextId
      ensures added == old(nextId) && nextId == old(nextId) + 1 && Allocated()
      ensures pages == SplitInternalPages(old(pages), p, added) && middleKey == MidKey(old(pages[p]))
      ensures p in pages && pages[p].parent == old(pages[p].parent) && added in pages
      ensures Pairs(pages) == old(Pairs(pages))
    {
      forall c | c in pages[p].children ensures c in pages && c != p && pages[c].parent == p {
        MovedChild(V(), maxKeys, p, p, c, 0);
      }
      added, middleKey := SplitInternalNode(p);
      SameEntriesSamePairs(old(pages), pages);
    }

    method InsertIntoLeaf(p: PageId, k: Key, value: RowId)
      requires Valid() && p in pages && pages[p].Leaf? && Within(spans[p], k)
      modifies this
      ensures Valid() && contents == old(contents)[k := value]
      ensures old(Balanced(V(), maxKeys)) ==> Balanced(V(), maxKeys)
      ensures old(Exact(pages)) ==> Exact(pages)
    {
      ghost var v := V();
      assert NodeOk(v, p);
      hide PagesOk, ChainOk, HalfFull, LeavesFilled, RootBranches, Exact, Stores, Pairs, Puts;
      var extended := PutEntry(pages[p].entries, k, value, spans[p]);
      contents := contents[k := value];
      pages := pages[p := pages[p].(entries := extended)];
      LeafWritten(v, maxKeys, p, extended, k, value, old(contents));
      if |extended| <= maxKeys {
        return;
      }
      ghost var w := V();
      OverfullPage(w, maxKeys, p);
      SplitOverfullLeaf(p);
      SamePairsStore(w.pages, pages, contents);
    }

    /** The entries of a leaf with `k` updated in place or inserted where it belongs. */
    method PutEntry(entries: seq<Entry>, k: Key, value: RowId, ghost s: Span) returns (after: seq<Entry>)
      requires LeafOk(entries, s) && Within(s, k)
      ensures Puts(entries, after, s, k, value)
    {
      hide Puts;
      var pos := FindKeyPositionInLeaf(entries, k);
      if pos < |entries| && entries[pos].key == k {
        UpdatePuts(entries, s, k, value, pos);
        return entries[pos := Entry(k, value)];
      }
      InsertPuts(entries, s, k, value, pos);
      return InsertAt(entries, pos, Entry(k, value));
    }

    /** The second half of an insertion: split the leaf that is one entry too long. */
    method SplitOverfullLeaf(p: PageId)
      requires maxKeys > 0 && Allocated() && InvOver(V(), maxKeys, p)
      requires p in pages && pages[p].Leaf? && |pages[p].entries| == maxKeys + 1
      modifies this`pages, this`nextId, this`root, this`spans, this`chain
      ensures Inv(V(), maxKeys) && Allocated() && Pairs(pages) == old(Pairs(pages))
      ensures old(Balanced(V(), maxKeys)) ==> Balanced(V(), maxKeys)
      ensures old(Shaped(V(), maxKeys)) ==> Shaped(V(), maxKeys)
      ensures old(Exact(pages)) ==> Exact(pages)
    {
      hide PagesOk, ChainOk, HalfFull, LeavesFilled, Exact, Pairs, IsChildPos, NewRootPages, SplitLeafPages, MidKey;
      ghost var w := V();
      OverfullPage(w, maxKeys, p);
      var added, middleKey := SplitLeafNode(p);
      SplitLeafPairs(w.pages, p, added);
      var parent := pages[p].parent;
      if parent == INVALID_PAGE_ID {
        root := CreateNewRoot(p, middleKey, added);
        ghost var after := RootLeafSplit(w, maxKeys, added, root);
        spans, chain := after.spans, after.chain;
        assert V() == after;
      } else {
        ghost var slot, after := InnerLeafSplit(w, maxKeys, p, added);
        spans, chain := after.spans, after.chain;
        assert Pending(parent, slot, middleKey, added) == after;
        InsertIntoParent(parent, middleKey, added, slot);
      }
    }

    method Insert(k: Key, value: RowId)
      requires Valid()
      modifies this
      ensures Valid() && contents == old(contents)[k := value]
      ensures old(Balanced(V(), maxKeys)) ==> Balanced(V(), maxKeys)
      ensures old(Exact(pages)) ==> Exact(pages)
    {
      var p := FindLeafPage(k);
      InsertIntoLeaf(p, k, value);
    }

    // ---------- Range search ----------

    static method CollectRange(entries: seq<Entry>, min: Key, max: Key) returns (found: seq<Entry>, shouldStop: bool)
      requires SortedEntries(entries)
      ensures SortedEntries(found)
      ensures forall e :: e in found <==> e in entries && min <= e.key <= max
      ensures shouldStop <==> exists i :: 0 <= i < |entries| && max < entries[i].key
    {
      found, shouldStop := [], false;
      for i := 0 to |entries|
        invariant SortedEntries(found) && !shouldStop
        invariant forall e :: e in found <==> e in entries[..i] && min <= e.key <= max
        invariant forall j :: 0 <= j < i ==> entries[j].key <= max
      {
        var e := entries[i];
        assert entries[..i + 1] == entries[..i] + [e];
        if min <= e.key <= max {
          assert forall j :: 0 <= j < |found| ==> found[j] in found;
          found := found + [e];
        } else if max < e.key {
          shouldStop := true;
          assert forall f :: f in entries[i..] ==> max < f.key;
          assert entries == entries[..i] + entries[i..];
          return;
        }
      }
      assert entries[..|entries|] == entries;
    }

    /** Every stored entry with min <= key <= max, in key order, each once. */
    method RangeSearch(min: Key, max: Key) returns (results: seq<Entry>)
      requires Valid()
      ensures SortedEntries(results)
      ensures forall e: Entry :: e in results <==> e.key in contents && contents[e.key] == e.value && min <= e.key <= max
    {
      var p := FindLeafPage(min);
      results := [];
      ghost var i := ChainIndex(V(), maxKeys, p);
      while p != INVALID_PAGE_ID
        invariant 0 <= i <= |chain| && p == At0(chain, i)
        invariant RangeUpTo(V(), results, min, max, Frontier(V(), i))
        decreases |chain| - i
      {
        RangeLeaf(V(), maxKeys, i, min, max, results);
        var entries := pages[p].entries;
        var nextPageId := pages[p].next;
        var found, shouldStop := CollectRange(entries, min, max);
        RangeExtends(V(), maxKeys, i, min, max, results, found);
        results := results + found;
        if shouldStop {
          RangeStops(V(), maxKeys, i, min, max, results);
          return;
        }
        p := nextPageId;
        i := i + 1;
      }
    }

    // ---------- Deletion ----------

    method DeleteKeyFromLeaf(p: PageId, k: Key) returns (found: bool)
      requires IsLeaf(pages, p) && SortedEntries(pages[p].entries)
      modifies this`pages
      ensures found <==> KeyIndex(old(pages[p].entries), k) >= 0
      ensures pages == Without(old(pages), p, k)
    {
      var entries := pages[p].entries;
      var pos := FindKeyPositionInLeaf(entries, k);
      if pos >= |entries| || entries[pos].key != k {
        return false;
      }
      assert KeyIndex(entries, k) == pos;
      pages := pages[p := pages[p].(entries := DropAt(entries, pos))];
      found := true;
    }

    method IsUnderflow(p: PageId) returns (u: bool)
      requires p in pages
      ensures pages[p].parent != INVALID_PAGE_ID ==> (u <==> Size(pages[p]) < MinKeys(maxKeys))
      ensures pages[p].parent == INVALID_PAGE_ID && pages[p].Leaf? ==> !u
    {
      var n := pages[p];
      if n.parent == INVALID_PAGE_ID {
        return if n.Leaf? then false else |n.keys| < 1;
      }
      u := Size(n) < (maxKeys + 1) / 2;
    }

    method GetSiblings(p: PageId, q: PageId) returns (found: bool, left: PageId, right: PageId, index: int)
      ensures found <==> IsInternal(pages, q) && p in pages[q].children
      ensures found ==> index == IndexOf(pages[q].children, p)
      ensures found ==> left == if index > 0 then pages[q].children[index - 1] else INVALID_PAGE_ID
      ensures found ==> right == if index + 1 < |pages[q].children| then pages[q].children[index + 1] else INVALID_PAGE_ID
    {
      found, left, right, index := false, INVALID_PAGE_ID, INVALID_PAGE_ID, -1;
      if !IsInternal(pages, q) {
        return;
      }
      var children := pages[q].children;
      for i := 0 to |children|
        invariant !found && p !in children[..i]
      {
        assert children[..i + 1] == children[..i] + [children[i]];
        if children[i] == p {
          FirstIndex(children, p, i);
          assert IndexOf(children, p) == i;
          left := if i > 0 then children[i - 1] else INVALID_PAGE_ID;
          right := if i + 1 < |children| then children[i + 1] else INVALID_PAGE_ID;
          found, index := true, i;
          return;
        }
      }
      assert children[..|children|] == children;
    }

    method BorrowFromLeftSiblingLeaf(p: PageId, left: PageId, q: PageId, index: nat) returns (ok: bool)
      requires IsInternal(pages, q) && 0 < index < |pages[q].children|
      requires pages[q].children[index - 1] == left && pages[q].children[index] == p
      modifies this`pages
      ensures ok <==> CanLend(old(pages), left, maxKeys) && IsLeaf(old(pages), p)
      ensures pages == if ok then BorrowLeftPages(old(pages), q, index) else old(pages)
    {
      if !IsLeaf(pages, left) || |pages[left].entries| <= MinKeys(maxKeys) || !IsLeaf(pages, p) {
        return false;
      }
      var leftEntries, nodeEntries := pages[left].entries, pages[p].entries;
      var borrowed := leftEntries[|leftEntries| - 1];
      leftEntries := leftEntries[..|leftEntries| - 1];
      nodeEntries := [borrowed] + nodeEntries;
      pages := pages[left := pages[left].(entries := leftEntries)];
      pages := pages[p := pages[p].(entries := nodeEntries)];
      pages := pages[q := pages[q].(keys := pages[q].keys[index - 1 := nodeEntries[0].key])];
      ok := true;
    }

    method BorrowFromRightSiblingLeaf(p: PageId, right: PageId, q: PageId, index: nat) returns (ok: bool)
      requires maxKeys > 0 && IsInternal(pages, q) && index + 1 < |pages[q].children|
      requires pages[q].children[index] == p && pages[q].children[index + 1] == right && (IsLeaf(pages, p) ==> p != right)
      modifies this`pages
      ensures ok <==> CanLend(old(pages), right, maxKeys) && IsLeaf(old(pages), p)
      ensures pages == if ok then BorrowRightPages(old(pages), q, index) else old(pages)
    {
      if !IsLeaf(pages, right) || |pages[right].entries| <= MinKeys(maxKeys) || !IsLeaf(pages, p) {
        return false;
      }
      var nodeEntries, rightEntries := pages[p].entries, pages[right].entries;
      nodeEntries := nodeEntries + [rightEntries[0]];
      rightEntries := rightEntries[1..];
      pages := pages[right := pages[right].(entries := rightEntries)];
      pages := pages[p := pages[p].(entries := nodeEntries)];
      pages := pages[q := pages[q].(keys := pages[q].keys[index := rightEntries[0].key])];
      ok := true;
      assert pages == BorrowRightPages(old(pages), q, index);
    }

    method DeleteKeyFromInternal(q: PageId, entries: seq<Entry>) returns (found: bool)
      requires IsInternal(pages, q)
      modifies this`pages
      ensures pages == old(pages)[q := DropSeparator(old(pages[q]), entries)]
    {
      found := false;
      var n := pages[q];
      if entries == [] {
        return;
      }
      var key := entries[0].key;
      for i := 0 to |n.keys|
        invariant pages == old(pages) && key !in n.keys[..i]
      {
        assert n.keys[..i + 1] == n.keys[..i] + [n.keys[i]];
        if n.keys[i] == key {
          FirstIndex(n.keys, key, i);
          assert IndexOf(n.keys, key) == i;
          pages := pages[q := n.(keys := DropAt(n.keys, i), children := DropAt(n.children, i + 1))];
          return true;
        }
      }
      assert n.keys[..|n.keys|] == n.keys;
    }

    /** Merges leaf `r` into `l`: both of the source's merges, with the node on either side. */
    method MergeLeaves(l: PageId, r: PageId, q: PageId) returns (ok: bool)
      requires IsInternal(pages, q)
      modifies this`pages
      ensures ok <==> IsLeaf(old(pages), l) && IsLeaf(old(pages), r)
      ensures pages == if ok then MergePages(old(pages), l, r, q) else old(pages)
    {
      if !IsLeaf(pages, l) || !IsLeaf(pages, r) {
        return false;
      }
      var leftEntries, rightEntries, rightNext := pages[l].entries, pages[r].entries, pages[r].next;
      pages := pages[l := pages[l].(entries := leftEntries + rightEntries, next := rightNext)];
      if IsLeaf(pages, rightNext) {
        pages := pages[rightNext := pages[rightNext].(prev := l)];
      }
      var _ := DeleteKeyFromInternal(q, rightEntries);
      pages := pages - {r};
      ok := true;
    }

    method HandleUnderflow(p: PageId, q: PageId) returns (ok: bool)
      requires maxKeys > 0 && INVALID_PAGE_ID !in pages
      requires IsLeaf(pages, p) && IsInternal(pages, q) ==>
                 forall i :: 0 <= i < |pages[q].children| - 1 ==> pages[q].children[i] != pages[q].children[i + 1]
      modifies this`pages
      ensures pages == UnderflowPages(old(pages), maxKeys, p, q)
      decreases IsLeaf(pages, p)
    {
      var found, left, right, index := GetSiblings(p, q);
      if !found {
        return false;
      }
      if index > 0 {
        ok := BorrowFromLeftSiblingLeaf(p, left, q, index);
        if ok { return; }
      }
      if index + 1 < |pages[q].children| {
        ok := BorrowFromRightSiblingLeaf(p, right, q, index);
        if ok { return; }
      }
      var merged := false;
      if index > 0 {
        merged := MergeLeaves(left, p, q);
      } else if index + 1 < |pages[q].children| {
        merged := MergeLeaves(p, right, q);
      }
      if merged && q in pages {
        var parentUnderflow := IsUnderflow(q);
        var grandParent := pages[q].parent;
        if parentUnderflow && grandParent != INVALID_PAGE_ID {
          // An internal node: the leaf routines below refuse it and nothing changes.
          var _ := HandleUnderflow(q, grandParent);
        }
      }
      ok := merged;
    }

    /** An internal root without keys and with one child that exists gives way to that child; every other
        page stays as it is, and any other root stays. */
    method UpdateRootIfEmpty()
      modifies this`pages, this`root
      ensures (pages, root) == Collapse(old(pages), old(root))
      ensures var n := if old(root in pages) then old(pages[root]) else Leaf([], 0, 0, 0);
              if n.Internal? && n.keys == [] && |n.children| == 1 && n.children[0] in old(pages) && n.children[0] != old(root) then
                root == n.children[0] && pages.Keys == old(pages.Keys) - {old(root)} &&
                pages[root] == old(pages)[root].(parent := INVALID_PAGE_ID) &&
                forall p :: p in pages && p != root ==> pages[p] == old(pages)[p]
              else n.Leaf? || n.keys != [] ==> pages == old(pages) && root == old(root)
    {
      if root in pages && pages[root].Internal? && pages[root].keys == [] && pages[root].children != [] {
        var oldRoot := root;
        root := pages[root].children[0];
        if root in pages {
          pages := pages[root := pages[root].(parent := INVALID_PAGE_ID)];
        }
        pages := pages - {oldRoot};
      }
    }

    /** The work of `remove` once the leaf is known: drop the entry, repair the leaf, drop an empty root. */
    method RemoveFromLeaf(p: PageId, k: Key) returns (found: bool)
      requires Inv(V(), maxKeys) && maxKeys > 0 && IsLeaf(pages, p)
      modifies this`pages, this`root
      ensures found <==> KeyIndex(old(pages[p].entries), k) >= 0
      ensures !found ==> pages == old(pages) && root == old(root)
      ensures found ==> (pages, root) == RemovePages(old(pages), old(root), maxKeys, p, k)
    {
      ghost var v := V();
      assert NodeOk(v, p) && UpOk(v, p);
      hide PagesOk, ChainOk;
      found := DeleteKeyFromLeaf(p, k);
      if !found {
        return;
      }
      var underflow := IsUnderflow(p);
      var parent := pages[p].parent;
      if underflow && parent != INVALID_PAGE_ID {
        SlotsDistinct(v, maxKeys, parent);
        var _ := HandleUnderflow(p, parent);
      }
      UpdateRootIfEmpty();
    }

    /** Removes `k`.  The result is a valid tree without exactly `k` if and only if the deletion is
        safe, as it always is when separators are exact and `k` is none of them. */
    method Remove(k: Key) returns (found: bool)
      requires Valid()
      modifies this
      ensures found <==> k in old(contents)
      ensures !found ==> V() == old(V()) && contents == old(contents) && Valid()
      ensures found && old(SafeToRemove(pages, maxKeys, k)) ==> Valid() && contents == old(contents) - {k}
      ensures found && !old(SafeToRemove(pages, maxKeys, k)) ==> Dangling(pages) && !Valid()
      ensures found && old(Exact(pages)) && !old(IsSeparator(pages, k)) ==>
                old(SafeToRemove(pages, maxKeys, k)) && Exact(pages)
    {
      hide Exact, IsSeparator, RemovePages, SafeToRemove, Stores, Dangling, Shaped;
      ghost var v := V();
      var p := FindLeafPage(k);
      assert NodeOk(v, p);
      found := RemoveFromLeaf(p, k);
      if !found {
        KeyAbsent(v, maxKeys, p, k, contents);
        return;
      }
      ghost var pos := KeyIndex(v.pages[p].entries, k);
      ghost var w := RemoveTheorem(v, maxKeys, p, k, pos, contents);
      KeyPresent(v, p, pos, contents);
      if old(Exact(pages)) && !old(IsSeparator(pages, k)) { ExactRemovesSafely(v, maxKeys, p, k, pos, contents); }
      hide PagesOk, ChainOk;
      contents := contents - {k};
      if old(SafeToRemove(pages, maxKeys, k)) {
        spans, chain := w.spans, w.chain;
        assert V() == w;
        OnlyOldPages(v.pages, v.root, maxKeys, p, k);
      } else {
        DanglingIsInvalid(V(), maxKeys);
      }
    }
  }
}
