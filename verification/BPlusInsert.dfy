/**
 * The page updates of an insertion, as functions on the page map, and the lemmas that each of them
 * takes one state of the invariant to the next: write a leaf, split a leaf, split an internal
 * node, grow a new root.
 */
module BPlusInsert {
  import opened BPlusPages

  function InsertAt<T>(s: seq<T>, i: nat, x: T): (r: seq<T>)
    requires i <= |s|
  {
    s[..i] + [x] + s[i..]
  }

  /** `pos` separates the keys that are at most `k` from those above it. */
  ghost predicate IsChildPos(keys: seq<Key>, k: Key, pos: int) {
    0 <= pos <= |keys| &&
    (forall i :: 0 <= i < pos ==> keys[i] <= k) &&
    (pos < |keys| ==> k < keys[pos]) &&
    (forall i :: pos <= i < |keys| ==> k < keys[i])
  }

  /** The first key above `k` is where the keys at most `k` end. */
  lemma PositionUnique(keys: seq<Key>, k: Key, pos: int, at: nat)
    requires IsChildPos(keys, k, pos)
    requires at <= |keys| && (forall i :: 0 <= i < at ==> keys[i] <= k) && (at < |keys| ==> k < keys[at])
    ensures at == pos
  {
  }

  function AddChild(n: Node, pos: nat, key: Key, child: PageId): Node
    requires n.Internal? && pos <= |n.keys| && pos < |n.children|
  {
    n.(keys := InsertAt(n.keys, pos, key), children := InsertAt(n.children, pos + 1, child))
  }

  function WithEntries(pages: map<PageId, Node>, p: PageId, entries: seq<Entry>): map<PageId, Node>
    requires p in pages && pages[p].Leaf?
  {
    pages[p := pages[p].(entries := entries)]
  }

  function WithPrev(pages: map<PageId, Node>, p: PageId, prev: PageId): map<PageId, Node> {
    if p in pages && pages[p].Leaf? then pages[p := pages[p].(prev := prev)] else pages
  }

  /** The pages after a leaf split, before the parent hears of the new leaf. */
  function SplitLeafPages(pages: map<PageId, Node>, p: PageId, added: PageId): map<PageId, Node>
    requires p in pages && pages[p].Leaf?
  {
    var n := pages[p];
    var mid := |n.entries| / 2;
    var split := pages[added := Leaf(n.entries[mid..], n.parent, n.next, p)]
                      [p := n.(entries := n.entries[..mid], next := added)];
    WithPrev(split, n.next, added)
  }

  function Reparent(pages: map<PageId, Node>, cs: seq<PageId>, parent: PageId): map<PageId, Node> {
    map x | x in pages :: if x in cs then pages[x].(parent := parent) else pages[x]
  }

  lemma ReparentSame(pages: map<PageId, Node>, cs: seq<PageId>, parent: PageId)
    requires forall c :: c in cs ==> c in pages && pages[c].parent == parent
    ensures Reparent(pages, cs, parent) == pages
  {
  }

  /** The pages after an internal split, before the parent hears of the new node. */
  function SplitInternalPages(pages: map<PageId, Node>, p: PageId, added: PageId): map<PageId, Node>
    requires p in pages && pages[p].Internal? && |pages[p].keys| > 0
    requires |pages[p].children| == |pages[p].keys| + 1
  {
    var n := pages[p];
    var mid := |n.keys| / 2;
    var split := pages[added := Internal(n.keys[mid + 1..], n.children[mid + 1..], n.parent)]
                      [p := n.(keys := n.keys[..mid], children := n.children[..mid + 1])];
    Reparent(split, n.children[mid + 1..], added)
  }

  // ---------- Where a page hangs below its parent ----------

  lemma ParentSlot(v: View, cap: nat, over: PageId, p: PageId) returns (i: nat)
    requires InvOver(v, cap, over) && p in v.pages && p != v.root
    ensures v.pages[p].parent in v.pages && v.pages[v.pages[p].parent].Internal?
    ensures InternalOk(v, v.pages[p].parent)
    ensures i < |v.pages[v.pages[p].parent].children| && v.pages[v.pages[p].parent].children[i] == p
    ensures ChildOk(v, v.pages[p].parent, i)
  {
    assert UpOk(v, p);
    var q := v.pages[p].parent;
    assert NodeOk(v, q);
    i :| 0 <= i < |v.pages[q].children| && v.pages[q].children[i] == p;
  }

  /** A key inside the span of child `i` is looked up, and inserted, at position `i` of the parent. */
  lemma PositionOfSlot(v: View, q: PageId, i: nat, k: Key)
    requires Dom(v) && q in v.pages && v.pages[q].Internal? && InternalOk(v, q)
    requires i < |v.pages[q].children| && ChildOk(v, q, i)
    requires var c := v.pages[q].children[i]; AtMost(v.spans[c].lo, At(k)) && Less(At(k), v.spans[c].hi)
    ensures IsChildPos(v.pages[q].keys, k, i)
  {
    var keys := v.pages[q].keys;
    assert i > 0 ==> keys[i - 1] <= k;
    assert i < |keys| ==> k < keys[i];
  }

  /** Children of one internal page are distinct. */
  lemma DistinctChildren(v: View, cap: nat, over: PageId, q: PageId, i: nat, j: nat)
    requires InvOver(v, cap, over) && q in v.pages && v.pages[q].Internal?
    requires i < j < |v.pages[q].children|
    ensures v.pages[q].children[i] != v.pages[q].children[j]
  {
    assert NodeOk(v, q);
    assert ChildOk(v, q, i) && ChildOk(v, q, j);
    var keys := v.pages[q].keys;
    if i > 0 {
      assert keys[i - 1] < keys[j - 1];
    } else {
      assert Less(v.spans[q].lo, At(keys[j - 1]));
    }
  }

  // ---------- Writing a leaf ----------

  function LeafView(v: View, p: PageId, entries: seq<Entry>): View
    requires p in v.pages && v.pages[p].Leaf?
  {
    v.(pages := WithEntries(v.pages, p, entries))
  }

  lemma WriteLeaf(v: View, cap: nat, p: PageId, entries: seq<Entry>)
    requires Inv(v, cap) && p in v.pages && v.pages[p].Leaf?
    requires LeafOk(entries, v.spans[p]) && |entries| <= cap + 1
    ensures InvOver(LeafView(v, p, entries), cap, p)
    ensures |entries| <= cap ==> Inv(LeafView(v, p, entries), cap)
  {
    var w := LeafView(v, p, entries);
    forall q | q in w.pages ensures NodeOk(w, q) && UpOk(w, q) && SizeOk(w, cap, p, q)
    {
      assert NodeOk(v, q) && UpOk(v, q) && SizeOk(v, cap, INVALID_PAGE_ID, q);
      if w.pages[q].Internal? {
        forall i | 0 <= i < |w.pages[q].children| ensures ChildOk(w, q, i) {
          assert ChildOk(v, q, i);
        }
      }
    }
    forall q | q in w.pages && |entries| <= cap ensures SizeOk(w, cap, INVALID_PAGE_ID, q)
    {
      assert SizeOk(v, cap, INVALID_PAGE_ID, q);
    }
    SameChain(v, w);
  }

  /** The chain condition only reads the leaves: their spans and list links. */
  lemma SameChain(v: View, w: View)
    requires Dom(v) && Dom(w) && ChainOk(v) && w.chain == v.chain
    requires forall p :: p in w.pages && w.pages[p].Leaf? ==> p in v.pages && v.pages[p].Leaf?
    requires forall p :: p in v.pages && v.pages[p].Leaf? ==> SameLinks(v, w, p)
    ensures ChainOk(w)
  {
    forall i | 0 <= i < |w.chain| ensures LinkOk(w, i) {
      assert LinkOk(v, i);
      assert i + 1 < |v.chain| ==> LinkOk(v, i + 1);
    }
    forall i, j | 0 <= i < j < |w.chain| ensures Apart(w, i, j) {
      assert Apart(v, i, j) && LinkOk(v, i) && LinkOk(v, j);
    }
  }

  ghost predicate SameLinks(v: View, w: View, p: PageId)
    requires Dom(v) && Dom(w) && p in v.pages && v.pages[p].Leaf?
  {
    p in w.pages && w.pages[p].Leaf? && w.spans[p] == v.spans[p] &&
    w.pages[p].next == v.pages[p].next && w.pages[p].prev == v.pages[p].prev
  }

  // ---------- Splitting a leaf ----------

  function MidKey(n: Node): Key
    requires Size(n) > 0
  {
    if n.Leaf? then n.entries[|n.entries| / 2].key else n.keys[|n.keys| / 2]
  }

  /** A leaf split seen from above: the parent has already received the new leaf at `pos`, and the
      new leaf follows the old one, the `i`-th of the chain. */
  function SplitLeafView(v: View, p: PageId, added: PageId, i: nat, pos: nat): View
    requires p in v.pages && v.pages[p].Leaf? && Size(v.pages[p]) > 0 && p in v.spans
    requires var q := v.pages[p].parent; q in v.pages && v.pages[q].Internal? && q != added
    requires pos <= |v.pages[v.pages[p].parent].keys| && pos < |v.pages[v.pages[p].parent].children|
    requires i < |v.chain|
  {
    var q, s, key := v.pages[p].parent, v.spans[p], MidKey(v.pages[p]);
    View(SplitLeafPages(v.pages, p, added)[q := AddChild(v.pages[q], pos, key, added)],
         v.root,
         v.spans[p := s.(hi := At(key))][added := s.(lo := At(key))],
         InsertAt(v.chain, i + 1, added))
  }

  ghost predicate CanSplitLeaf(v: View, cap: nat, p: PageId, added: PageId, i: nat, pos: nat) {
    InvOver(v, cap, p) && cap > 0 && p in v.pages && p != v.root && v.pages[p].Leaf? &&
    |v.pages[p].entries| == cap + 1 && added !in v.pages && added != INVALID_PAGE_ID &&
    i < |v.chain| && v.chain[i] == p &&
    var q := v.pages[p].parent;
    q in v.pages && v.pages[q].Internal? && InternalOk(v, q) &&
    pos < |v.pages[q].children| && v.pages[q].children[pos] == p && ChildOk(v, q, pos)
  }

  lemma SplitLeafSpans(v: View, cap: nat, p: PageId, added: PageId, i: nat, pos: nat)
    requires CanSplitLeaf(v, cap, p, added, i, pos)
    ensures var key := MidKey(v.pages[p]); Less(v.spans[p].lo, At(key)) && Less(At(key), v.spans[p].hi)
    ensures var w := SplitLeafView(v, p, added, i, pos);
            Dom(w) && LeafOk(w.pages[p].entries, w.spans[p]) && LeafOk(w.pages[added].entries, w.spans[added])
  {
    assert NodeOk(v, p);
    var es := v.pages[p].entries;
    assert Within(v.spans[p], es[0].key) && es[0].key < es[|es| / 2].key;
  }

  lemma SplitLeafParent(v: View, cap: nat, p: PageId, added: PageId, i: nat, pos: nat)
    requires CanSplitLeaf(v, cap, p, added, i, pos)
    requires var w := SplitLeafView(v, p, added, i, pos); Dom(w)
    requires var key := MidKey(v.pages[p]); Less(v.spans[p].lo, At(key)) && Less(At(key), v.spans[p].hi)
    ensures InternalOk(SplitLeafView(v, p, added, i, pos), v.pages[p].parent)
  {
    var w := SplitLeafView(v, p, added, i, pos);
    var q, key := v.pages[p].parent, MidKey(v.pages[p]);
    var keys, s := v.pages[q].keys, v.spans[q];
    InsertKeySorted(keys, s, pos, key);
    forall j | 0 <= j < |w.pages[q].children| ensures ChildOk(w, q, j) {
      if j < pos {
        assert ChildOk(v, q, j);
        DistinctChildren(v, cap, p, q, j, pos);
      } else if j > pos + 1 {
        assert ChildOk(v, q, j - 1);
        DistinctChildren(v, cap, p, q, pos, j - 1);
      }
    }
  }

  lemma InsertKeySorted(keys: seq<Key>, s: Span, pos: nat, key: Key)
    requires KeysOk(keys, s) && pos <= |keys|
    requires Less(ChildLo(keys, s, pos), At(key)) && Less(At(key), ChildHi(keys, s, pos))
    ensures KeysOk(InsertAt(keys, pos, key), s)
  {
    assert forall i :: 0 <= i < pos ==> keys[i] <= keys[pos - 1];
    assert forall i :: pos <= i < |keys| ==> keys[pos] <= keys[i];
  }

  lemma SplitLeafOther(v: View, cap: nat, p: PageId, added: PageId, i: nat, pos: nat, x: PageId)
    requires CanSplitLeaf(v, cap, p, added, i, pos)
    requires Dom(SplitLeafView(v, p, added, i, pos))
    requires x in v.pages && x != p && x != v.pages[p].parent
    ensures NodeOk(SplitLeafView(v, p, added, i, pos), x)
  {
    var w := SplitLeafView(v, p, added, i, pos);
    assert NodeOk(v, x);
    if v.pages[x].Internal? {
      forall j | 0 <= j < |w.pages[x].children| ensures ChildOk(w, x, j) {
        assert ChildOk(v, x, j);
      }
    }
  }

  lemma SplitLeafLink(v: View, cap: nat, p: PageId, added: PageId, i: nat, pos: nat, a: nat)
    requires CanSplitLeaf(v, cap, p, added, i, pos)
    requires Dom(SplitLeafView(v, p, added, i, pos))
    requires forall j, k :: 0 <= j < k < |v.chain| ==> v.chain[j] != v.chain[k]
    requires a < |v.chain| + 1
    ensures LinkOk(SplitLeafView(v, p, added, i, pos), a)
  {
    var w := SplitLeafView(v, p, added, i, pos);
    assert LinkOk(v, i);
    assert i + 1 < |v.chain| ==> LinkOk(v, i + 1);
    if a <= i {
      assert LinkOk(v, a);
      assert a < i ==> LinkOk(v, a + 1) && w.chain[a + 1] == v.chain[a + 1];
    } else if a > i + 1 {
      assert LinkOk(v, a - 1);
      assert a < |v.chain| ==> LinkOk(v, a) && w.chain[a + 1] == v.chain[a];
    }
  }

  lemma SplitLeafApart(v: View, cap: nat, p: PageId, added: PageId, i: nat, pos: nat, a: nat, b: nat)
    requires CanSplitLeaf(v, cap, p, added, i, pos)
    requires Dom(SplitLeafView(v, p, added, i, pos))
    requires forall j, k :: 0 <= j < k < |v.chain| ==> v.chain[j] != v.chain[k]
    requires Less(At(MidKey(v.pages[p])), v.spans[p].hi) && Less(v.spans[p].lo, At(MidKey(v.pages[p])))
    requires a < b < |v.chain| + 1
    ensures Apart(SplitLeafView(v, p, added, i, pos), a, b)
  {
    hide PagesOk, ChildOk, MidKey, AddChild, NodeOk;
    var w := SplitLeafView(v, p, added, i, pos);
    var a', b' := if a <= i then a else a - 1, if b <= i then b else b - 1;
    assert LinkOk(v, a') && LinkOk(v, b');
    assert a' < b' ==> Apart(v, a', b');
  }

  lemma SplitLeafChain(v: View, cap: nat, p: PageId, added: PageId, i: nat, pos: nat)
    requires CanSplitLeaf(v, cap, p, added, i, pos)
    requires Dom(SplitLeafView(v, p, added, i, pos))
    requires var key := MidKey(v.pages[p]); Less(v.spans[p].lo, At(key)) && Less(At(key), v.spans[p].hi)
    ensures ChainOk(SplitLeafView(v, p, added, i, pos))
  {
    var w := SplitLeafView(v, p, added, i, pos);
    forall x | x in w.pages && w.pages[x].Leaf? ensures x in w.chain {
      if x == added {
        assert w.chain[i + 1] == x;
      } else {
        assert x in v.chain;
        var a :| 0 <= a < |v.chain| && v.chain[a] == x;
        assert w.chain[if a <= i then a else a + 1] == x;
      }
    }
    ChainDistinct(v);
    forall a | 0 <= a < |w.chain| ensures LinkOk(w, a) {
      SplitLeafLink(v, cap, p, added, i, pos, a);
    }
    forall a, b | 0 <= a < b < |w.chain| ensures Apart(w, a, b) {
      SplitLeafApart(v, cap, p, added, i, pos, a, b);
    }
  }

  /** The chain lists no leaf twice. */
  lemma ChainDistinct(v: View)
    requires Dom(v) && ChainOk(v) && forall p {:trigger NodeOk(v, p)} :: p in v.pages ==> NodeOk(v, p)
    ensures forall i, j :: 0 <= i < j < |v.chain| ==> v.chain[i] != v.chain[j]
  {
    forall i, j | 0 <= i < j < |v.chain| ensures v.chain[i] != v.chain[j] {
      assert Apart(v, i, j) && NodeOk(v, v.chain[i]);
    }
  }

  /** Splitting an overfull leaf and telling its parent moves the excess key one level up. */
  lemma SplitLeafKeepsInv(v: View, cap: nat, p: PageId, added: PageId, i: nat, pos: nat)
    requires CanSplitLeaf(v, cap, p, added, i, pos)
    ensures InvOver(SplitLeafView(v, p, added, i, pos), cap, v.pages[p].parent)
  {
    var w := SplitLeafView(v, p, added, i, pos);
    var q := v.pages[p].parent;
    SplitLeafSpans(v, cap, p, added, i, pos);
    SplitLeafParent(v, cap, p, added, i, pos);
    SplitLeafChain(v, cap, p, added, i, pos);
    forall x | x in w.pages ensures NodeOk(w, x) && UpOk(w, x) && SizeOk(w, cap, q, x)
    {
      if x == q {
        assert NodeOk(v, q) && UpOk(v, q) && SizeOk(v, cap, p, q);
      } else if x != p && x != added {
        SplitLeafOther(v, cap, p, added, i, pos, x);
        assert UpOk(v, x) && SizeOk(v, cap, p, x);
        InsertKeepsMembers(v.pages[q].children, pos + 1, added, x);
      } else {
        assert UpOk(v, p) && SizeOk(v, cap, p, p);
        InsertKeepsMembers(v.pages[q].children, pos + 1, added, x);
      }
    }
  }

  lemma InsertKeepsMembers<T>(s: seq<T>, i: nat, x: T, y: T)
    requires i <= |s|
    ensures y in InsertAt(s, i, x) <==> y == x || y in s
  {
    assert s == s[..i] + s[i..];
  }

  // ---------- Splitting an internal node ----------

  function SplitInternalView(v: View, p: PageId, added: PageId, pos: nat): View
    requires p in v.pages && v.pages[p].Internal? && Size(v.pages[p]) > 0 && p in v.spans
    requires |v.pages[p].children| == |v.pages[p].keys| + 1
    requires var q := v.pages[p].parent; q in v.pages && v.pages[q].Internal? && q != added
    requires pos <= |v.pages[v.pages[p].parent].keys| && pos < |v.pages[v.pages[p].parent].children|
  {
    var q, s, key := v.pages[p].parent, v.spans[p], MidKey(v.pages[p]);
    View(SplitInternalPages(v.pages, p, added)[q := AddChild(v.pages[q], pos, key, added)],
         v.root,
         v.spans[p := s.(hi := At(key))][added := s.(lo := At(key))],
         v.chain)
  }

  ghost predicate CanSplitInternal(v: View, cap: nat, p: PageId, added: PageId, pos: nat) {
    InvOver(v, cap, p) && cap > 0 && p in v.pages && p != v.root && v.pages[p].Internal? &&
    |v.pages[p].keys| == cap + 1 && InternalOk(v, p) && added !in v.pages && added != INVALID_PAGE_ID &&
    var q := v.pages[p].parent;
    q in v.pages && v.pages[q].Internal? && InternalOk(v, q) && q != p &&
    pos < |v.pages[q].children| && v.pages[q].children[pos] == p && ChildOk(v, q, pos)
  }

  lemma MovedChild(v: View, cap: nat, p: PageId, over: PageId, c: PageId, mid: nat)
    requires InvOver(v, cap, over) && p in v.pages && v.pages[p].Internal? && mid < |v.pages[p].children|
    requires c in v.pages[p].children[mid..]
    ensures c in v.pages && v.pages[c].parent == p && v.spans[c].level + 1 == v.spans[p].level
  {
    assert NodeOk(v, p);
    var j :| mid <= j < |v.pages[p].children| && v.pages[p].children[j] == c;
    assert ChildOk(v, p, j);
  }

  /** The pages after the split, one by one: only the children that move change their parent. */
  lemma SplitInternalShape(v: View, cap: nat, p: PageId, added: PageId, pos: nat)
    requires CanSplitInternal(v, cap, p, added, pos)
    ensures var w := SplitInternalView(v, p, added, pos);
            var n, q, mid := v.pages[p], v.pages[p].parent, |v.pages[p].keys| / 2;
            var moved := n.children[mid + 1..];
            Dom(w) && w.pages.Keys == v.pages.Keys + {added} &&
            p !in moved && q !in moved && added !in moved &&
            w.pages[p] == Internal(n.keys[..mid], n.children[..mid + 1], q) &&
            w.pages[added] == Internal(n.keys[mid + 1..], moved, q) &&
            w.pages[q] == AddChild(v.pages[q], pos, n.keys[mid], added) &&
            forall x :: x in v.pages && x != p && x != q ==>
              w.pages[x] == if x in moved then v.pages[x].(parent := added) else v.pages[x]
  {
    var n, q, mid := v.pages[p], v.pages[p].parent, |v.pages[p].keys| / 2;
    var moved := n.children[mid + 1..];
    assert p !in moved && q !in moved && added !in moved by {
      if p in moved { MovedChild(v, cap, p, p, p, mid + 1); }
      if q in moved { MovedChild(v, cap, p, p, q, mid + 1); }
      if added in moved { MovedChild(v, cap, p, p, added, mid + 1); }
    }
  }

  lemma SplitKeys(keys: seq<Key>, s: Span, mid: nat)
    requires KeysOk(keys, s) && mid < |keys|
    ensures Less(s.lo, At(keys[mid])) && Less(At(keys[mid]), s.hi)
    ensures KeysOk(keys[..mid], s.(hi := At(keys[mid]))) && KeysOk(keys[mid + 1..], s.(lo := At(keys[mid])))
  {
  }

  lemma SplitInternalLeft(v: View, cap: nat, p: PageId, added: PageId, pos: nat)
    requires CanSplitInternal(v, cap, p, added, pos)
    ensures var key := MidKey(v.pages[p]); Less(v.spans[p].lo, At(key)) && Less(At(key), v.spans[p].hi)
    ensures Dom(SplitInternalView(v, p, added, pos)) && NodeOk(SplitInternalView(v, p, added, pos), p)
  {
    var w := SplitInternalView(v, p, added, pos);
    var n, mid := v.pages[p], |v.pages[p].keys| / 2;
    SplitInternalShape(v, cap, p, added, pos);
    SplitKeys(n.keys, v.spans[p], mid);
    forall j | 0 <= j < |w.pages[p].children| ensures ChildOk(w, p, j) {
      assert ChildOk(v, p, j);
      forall k | mid + 1 <= k < |n.children| ensures n.children[j] != n.children[k] {
        DistinctChildren(v, cap, p, p, j, k);
      }
    }
  }

  lemma SplitInternalRightChild(v: View, cap: nat, p: PageId, added: PageId, pos: nat, j: nat)
    requires CanSplitInternal(v, cap, p, added, pos)
    requires |v.pages[p].keys| / 2 + 1 + j < |v.pages[p].children|
    ensures var w := SplitInternalView(v, p, added, pos);
            Dom(w) && added in w.pages && w.pages[added].Internal? &&
            j < |w.pages[added].children| == |w.pages[added].keys| + 1 && ChildOk(w, added, j)
  {
    var n, mid := v.pages[p], |v.pages[p].keys| / 2;
    SplitInternalShape(v, cap, p, added, pos);
    var moved := n.children[mid + 1..];
    assert ChildOk(v, p, mid + 1 + j) && moved[j] == n.children[mid + 1 + j] && moved[j] in moved;
  }

  lemma SplitInternalRight(v: View, cap: nat, p: PageId, added: PageId, pos: nat)
    requires CanSplitInternal(v, cap, p, added, pos)
    ensures Dom(SplitInternalView(v, p, added, pos)) && NodeOk(SplitInternalView(v, p, added, pos), added)
  {
    var w := SplitInternalView(v, p, added, pos);
    var n, mid := v.pages[p], |v.pages[p].keys| / 2;
    SplitInternalShape(v, cap, p, added, pos);
    SplitKeys(n.keys, v.spans[p], mid);
    assert n.keys[mid + 1..] == w.pages[added].keys;
    forall j | 0 <= j < |w.pages[added].children| ensures ChildOk(w, added, j) {
      SplitInternalRightChild(v, cap, p, added, pos, j);
    }
  }

  lemma SplitInternalParent(v: View, cap: nat, p: PageId, added: PageId, pos: nat)
    requires CanSplitInternal(v, cap, p, added, pos)
    requires Dom(SplitInternalView(v, p, added, pos))
    requires var key := MidKey(v.pages[p]); Less(v.spans[p].lo, At(key)) && Less(At(key), v.spans[p].hi)
    ensures NodeOk(SplitInternalView(v, p, added, pos), v.pages[p].parent)
  {
    var w := SplitInternalView(v, p, added, pos);
    var q, key := v.pages[p].parent, MidKey(v.pages[p]);
    var n, mid := v.pages[p], |v.pages[p].keys| / 2;
    var moved := n.children[mid + 1..];
    SplitInternalShape(v, cap, p, added, pos);
    assert NodeOk(v, q);
    InsertKeySorted(v.pages[q].keys, v.spans[q], pos, key);
    forall j | 0 <= j < |w.pages[q].children| ensures ChildOk(w, q, j) {
      if j != pos + 1 {
        SplitInternalParentChild(v, cap, p, added, pos, j);
      }
    }
  }

  lemma SplitInternalParentChild(v: View, cap: nat, p: PageId, added: PageId, pos: nat, j: nat)
    requires CanSplitInternal(v, cap, p, added, pos)
    requires j < |v.pages[v.pages[p].parent].children| + 1 && j != pos + 1
    ensures var w, q := SplitInternalView(v, p, added, pos), v.pages[p].parent;
            Dom(w) && q in w.pages && w.pages[q].Internal? &&
            j < |w.pages[q].children| == |w.pages[q].keys| + 1 && ChildOk(w, q, j)
  {
    var q, mid := v.pages[p].parent, |v.pages[p].keys| / 2;
    SplitInternalShape(v, cap, p, added, pos);
    var k := if j <= pos then j else j - 1;
    var c := v.pages[q].children[k];
    assert ChildOk(v, q, k);
    if k < pos { DistinctChildren(v, cap, p, q, k, pos); }
    if k > pos { DistinctChildren(v, cap, p, q, pos, k); }
    if c in v.pages[p].children[mid + 1..] { MovedChild(v, cap, p, p, c, mid + 1); }
  }

  lemma SplitInternalOther(v: View, cap: nat, p: PageId, added: PageId, pos: nat, x: PageId)
    requires CanSplitInternal(v, cap, p, added, pos)
    requires Dom(SplitInternalView(v, p, added, pos))
    requires x in v.pages && x != p && x != v.pages[p].parent
    ensures NodeOk(SplitInternalView(v, p, added, pos), x)
  {
    var w := SplitInternalView(v, p, added, pos);
    var mid := |v.pages[p].keys| / 2;
    SplitInternalShape(v, cap, p, added, pos);
    assert NodeOk(v, x);
    if v.pages[x].Internal? {
      forall j | 0 <= j < |w.pages[x].children| ensures ChildOk(w, x, j) {
        assert ChildOk(v, x, j);
        var c := v.pages[x].children[j];
        if c in v.pages[p].children[mid + 1..] { MovedChild(v, cap, p, p, c, mid + 1); }
      }
    }
  }

  /** Splitting an overfull internal node and telling its parent moves the excess key one level up. */
  lemma SplitInternalKeepsInv(v: View, cap: nat, p: PageId, added: PageId, pos: nat)
    requires CanSplitInternal(v, cap, p, added, pos)
    ensures InvOver(SplitInternalView(v, p, added, pos), cap, v.pages[p].parent)
  {
    var w := SplitInternalView(v, p, added, pos);
    hide NodeOk, UpOk, SizeOk, InternalOk, ChildOk, ChainOk;
    var q := v.pages[p].parent;
    SplitInternalLeft(v, cap, p, added, pos);
    SplitInternalRight(v, cap, p, added, pos);
    SplitInternalParent(v, cap, p, added, pos);
    forall x | x in w.pages ensures NodeOk(w, x)
    {
      if x != p && x != q && x != added {
        SplitInternalOther(v, cap, p, added, pos, x);
      }
    }
    forall x | x in w.pages ensures UpOk(w, x) && SizeOk(w, cap, q, x) {
      SplitInternalUp(v, cap, p, added, pos, x);
    }
    SplitInternalChain(v, cap, p, added, pos);
  }

  lemma SplitInternalChain(v: View, cap: nat, p: PageId, added: PageId, pos: nat)
    requires CanSplitInternal(v, cap, p, added, pos)
    ensures Dom(SplitInternalView(v, p, added, pos)) && ChainOk(SplitInternalView(v, p, added, pos))
  {
    SplitInternalShape(v, cap, p, added, pos);
    SameChain(v, SplitInternalView(v, p, added, pos));
  }

  lemma SplitInternalUp(v: View, cap: nat, p: PageId, added: PageId, pos: nat, x: PageId)
    requires CanSplitInternal(v, cap, p, added, pos)
    requires x in SplitInternalView(v, p, added, pos).pages
    ensures UpOk(SplitInternalView(v, p, added, pos), x)
    ensures SizeOk(SplitInternalView(v, p, added, pos), cap, v.pages[p].parent, x)
  {
    var w := SplitInternalView(v, p, added, pos);
    var n, q, mid := v.pages[p], v.pages[p].parent, |v.pages[p].keys| / 2;
    SplitInternalShape(v, cap, p, added, pos);
    InsertKeepsMembers(v.pages[q].children, pos + 1, added, x);
    if x == p || x == added {
      assert UpOk(v, p) && SizeOk(v, cap, p, p);
    } else {
      assert UpOk(v, x) && SizeOk(v, cap, p, x);
      if x in n.children[mid + 1..] { MovedChild(v, cap, p, p, x, mid + 1); }
      if x != v.root && v.pages[x].parent == p {
        var j := ParentSlot(v, cap, p, x);
        assert x == q || x in n.children[..mid + 1] || x in n.children[mid + 1..];
      }
    }
  }

  // ---------- Growing a new root ----------

  /** A new root above the old one, still without a key. */
  function GrowView(v: View, r: PageId): View
    requires v.root in v.pages && v.root in v.spans
  {
    View(v.pages[r := Internal([], [v.root], INVALID_PAGE_ID)][v.root := v.pages[v.root].(parent := r)],
         r,
         v.spans[r := Span(NegInf, PosInf, v.spans[v.root].level + 1)],
         v.chain)
  }

  lemma GrowKeepsInv(v: View, cap: nat, over: PageId, r: PageId)
    requires InvOver(v, cap, over) && r !in v.pages && r != INVALID_PAGE_ID
    ensures InvOver(GrowView(v, r), cap, over)
    ensures InternalOk(GrowView(v, r), r) && ChildOk(GrowView(v, r), r, 0)
  {
    var w := GrowView(v, r);
    assert ChildOk(w, r, 0);
    forall x | x in w.pages ensures NodeOk(w, x) && UpOk(w, x) && SizeOk(w, cap, over, x) {
      if x != r {
        assert NodeOk(v, x) && UpOk(v, x) && SizeOk(v, cap, over, x);
        if v.pages[x].Internal? {
          forall j | 0 <= j < |w.pages[x].children| ensures ChildOk(w, x, j) {
            assert ChildOk(v, x, j);
            assert UpOk(v, v.root);
          }
        }
      }
    }
    forall x | x in v.pages && v.pages[x].Leaf? ensures SameLinks(v, w, x) {
    }
    SameChain(v, w);
  }

  /** The pages `createNewRoot` leaves behind. */
  function NewRootPages(pages: map<PageId, Node>, left: PageId, key: Key, right: PageId, r: PageId): map<PageId, Node>
    requires left in pages && right in pages
  {
    var grown := pages[r := Internal([key], [left, right], INVALID_PAGE_ID)];
    var first := grown[left := grown[left].(parent := r)];
    first[right := first[right].(parent := r)]
  }

  lemma NewRootAfterLeafSplit(v: View, added: PageId, r: PageId, i: nat)
    requires Dom(v) && v.root in v.pages && v.pages[v.root].Leaf? && Size(v.pages[v.root]) > 0
    requires v.pages[v.root].next != v.root && i < |v.chain|
    requires added !in v.pages && r !in v.pages && added != r && INVALID_PAGE_ID !in {added, r}
    requires v.pages[v.root].next == INVALID_PAGE_ID
    ensures SplitLeafView(GrowView(v, r), v.root, added, i, 0).pages ==
            NewRootPages(SplitLeafPages(v.pages, v.root, added), v.root, MidKey(v.pages[v.root]), added, r)
  {
    var a := SplitLeafView(GrowView(v, r), v.root, added, i, 0).pages;
    var b := NewRootPages(SplitLeafPages(v.pages, v.root, added), v.root, MidKey(v.pages[v.root]), added, r);
    assert a.Keys == b.Keys && a[r] == b[r];
    assert forall x :: x in a ==> a[x] == b[x];
  }

  lemma NewRootAfterInternalSplit(v: View, cap: nat, added: PageId, r: PageId)
    requires InvOver(v, cap, v.root) && v.pages[v.root].Internal? && |v.pages[v.root].keys| == cap + 1
    requires |v.pages[v.root].children| == |v.pages[v.root].keys| + 1
    requires added !in v.pages && r !in v.pages && added != r && INVALID_PAGE_ID !in {added, r}
    ensures SplitInternalView(GrowView(v, r), v.root, added, 0).pages ==
            NewRootPages(SplitInternalPages(v.pages, v.root, added), v.root, MidKey(v.pages[v.root]), added, r)
  {
    var moved := v.pages[v.root].children[(cap + 1) / 2 + 1..];
    forall c | c in moved ensures c in v.pages && c != v.root {
      MovedChild(v, cap, v.root, v.root, c, (cap + 1) / 2 + 1);
    }
    var a := SplitInternalView(GrowView(v, r), v.root, added, 0).pages;
    var b := NewRootPages(SplitInternalPages(v.pages, v.root, added), v.root, MidKey(v.pages[v.root]), added, r);
    assert a.Keys == b.Keys && a[r] == b[r];
    assert forall x :: x in a ==> a[x] == b[x];
  }

  /** An overfull page that turns out to fit after all. */
  lemma Settle(v: View, cap: nat, p: PageId)
    requires InvOver(v, cap, p) && (p in v.pages ==> Size(v.pages[p]) <= cap)
    ensures Inv(v, cap)
  {
    forall x | x in v.pages ensures SizeOk(v, cap, INVALID_PAGE_ID, x) {
      assert SizeOk(v, cap, p, x);
    }
  }

  // ---------- Contents ----------

  lemma SameEntriesSamePairs(pages: map<PageId, Node>, other: map<PageId, Node>)
    requires forall p :: p in pages && pages[p].Leaf? ==> p in other && other[p].Leaf? && other[p].entries == pages[p].entries
    requires forall p :: p in other && other[p].Leaf? ==> p in pages && pages[p].Leaf?
    ensures Pairs(other) == Pairs(pages)
  {
  }

  lemma SamePairsStore(pages: map<PageId, Node>, other: map<PageId, Node>, m: map<Key, RowId>)
    requires Pairs(other) == Pairs(pages) && Stores(pages, m)
    ensures Stores(other, m)
  {
  }

  /** A leaf split stores the same entries in more pages. */
  lemma SplitLeafPairs(pages: map<PageId, Node>, p: PageId, added: PageId)
    requires p in pages && pages[p].Leaf? && added !in pages
    ensures Pairs(SplitLeafPages(pages, p, added)) == Pairs(pages)
  {
    var after := SplitLeafPages(pages, p, added);
    var es, mid := pages[p].entries, |pages[p].entries| / 2;
    assert es == es[..mid] + es[mid..];
    forall e ensures e in Pairs(after) <==> e in Pairs(pages) {
      if e in Pairs(after) {
        var x :| x in after && after[x].Leaf? && e in after[x].entries;
        assert e in pages[if x == added then p else x].entries;
      }
      if e in Pairs(pages) {
        var x :| x in pages && pages[x].Leaf? && e in pages[x].entries;
        assert e in after[if x == p && e in es[mid..] then added else x].entries;
      }
    }
  }
}
