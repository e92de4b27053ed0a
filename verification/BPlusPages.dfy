/**
 * Pages of the generic B+ tree and the invariant that ties them together.
 *
 * A tree is a set of pages, each a leaf or an internal node, linked by page ids.  The invariant is
 * flat: every page carries a ghost `Span` (the half-open key interval it owns and its height above
 * the leaves), and each page is only compared with the pages it points to.  `BPlusTheory` proves
 * that the flat invariant implies the textbook recursive one.
 *
 * Keys are integers: the code only ever compares keys, and the finitely many keys of a run of any
 * totally ordered key type embed in the integers (`CompositeKeys` proves the comparator total).
 */
module BPlusPages {

  type Key = int
  type RowId = nat
  type PageId = nat

  const INVALID_PAGE_ID: PageId := 0

  datatype Entry = Entry(key: Key, value: RowId)

  /** An internal node keeps its first child and the children of its entries in one sequence:
      `children[0]` is the first child and `children[i + 1]` the child stored beside `keys[i]`. */
  datatype Node =
    | Leaf(entries: seq<Entry>, parent: PageId, next: PageId, prev: PageId)
    | Internal(keys: seq<Key>, children: seq<PageId>, parent: PageId)

  datatype Bound = NegInf | At(key: Key) | PosInf

  /** The keys a page owns (`lo` included, `hi` excluded) and its distance from the leaves. */
  datatype Span = Span(lo: Bound, hi: Bound, level: nat)

  /** The pages of a tree together with its ghost shape: the spans and the leaves in key order. */
  datatype View = View(pages: map<PageId, Node>, root: PageId, spans: map<PageId, Span>, chain: seq<PageId>)

  predicate Less(a: Bound, b: Bound) {
    match a
    case NegInf => !b.NegInf?
    case PosInf => false
    case At(k) => b.PosInf? || (b.At? && k < b.key)
  }

  predicate AtMost(a: Bound, b: Bound) {
    a == b || Less(a, b)
  }

  predicate Within(s: Span, k: Key) {
    AtMost(s.lo, At(k)) && Less(At(k), s.hi)
  }

  ghost predicate SortedKeys(keys: seq<Key>) {
    forall i, j :: 0 <= i < j < |keys| ==> keys[i] < keys[j]
  }

  ghost predicate SortedEntries(entries: seq<Entry>) {
    forall i, j :: 0 <= i < j < |entries| ==> entries[i].key < entries[j].key
  }

  function Size(n: Node): nat {
    if n.Leaf? then |n.entries| else |n.keys|
  }

  // ---------- The invariant, page by page ----------

  ghost predicate Dom(v: View) {
    v.spans.Keys == v.pages.Keys && INVALID_PAGE_ID !in v.pages
  }

  function ChildLo(keys: seq<Key>, s: Span, i: nat): Bound
    requires i <= |keys|
  {
    if i == 0 then s.lo else At(keys[i - 1])
  }

  function ChildHi(keys: seq<Key>, s: Span, i: nat): Bound
    requires i <= |keys|
  {
    if i == |keys| then s.hi else At(keys[i])
  }

  /** Child `i` of internal page `p` exists, points back to `p`, lies one level below it and owns
      exactly the interval between the separators around it. */
  ghost predicate ChildOk(v: View, p: PageId, i: nat)
    requires Dom(v) && p in v.pages && v.pages[p].Internal?
    requires i < |v.pages[p].children| == |v.pages[p].keys| + 1
  {
    var c := v.pages[p].children[i];
    c in v.pages && v.pages[c].parent == p &&
    v.spans[c].level + 1 == v.spans[p].level &&
    v.spans[c].lo == ChildLo(v.pages[p].keys, v.spans[p], i) &&
    v.spans[c].hi == ChildHi(v.pages[p].keys, v.spans[p], i)
  }

  ghost predicate LeafOk(entries: seq<Entry>, s: Span) {
    s.level == 0 && SortedEntries(entries) &&
    forall i :: 0 <= i < |entries| ==> Within(s, entries[i].key)
  }

  ghost predicate KeysOk(keys: seq<Key>, s: Span) {
    s.level > 0 && SortedKeys(keys) &&
    forall i :: 0 <= i < |keys| ==> Less(s.lo, At(keys[i])) && Less(At(keys[i]), s.hi)
  }

  ghost predicate InternalOk(v: View, p: PageId)
    requires Dom(v) && p in v.pages && v.pages[p].Internal?
  {
    KeysOk(v.pages[p].keys, v.spans[p]) && |v.pages[p].children| == |v.pages[p].keys| + 1 &&
    forall i {:trigger ChildOk(v, p, i)} :: 0 <= i < |v.pages[p].children| ==> ChildOk(v, p, i)
  }

  ghost predicate NodeOk(v: View, p: PageId)
    requires Dom(v) && p in v.pages
  {
    Less(v.spans[p].lo, v.spans[p].hi) &&
    if v.pages[p].Leaf? then LeafOk(v.pages[p].entries, v.spans[p]) else InternalOk(v, p)
  }

  /** Every page but the root is listed among the children of the page its parent pointer names. */
  ghost predicate UpOk(v: View, p: PageId)
    requires p in v.pages
  {
    var q := v.pages[p].parent;
    if p == v.root then q == INVALID_PAGE_ID
    else q in v.pages && v.pages[q].Internal? && p in v.pages[q].children
  }

  /** Page `over` may hold one key more than the capacity: it is about to be split. */
  ghost predicate SizeOk(v: View, cap: nat, over: PageId, p: PageId)
    requires p in v.pages
  {
    Size(v.pages[p]) <= cap + if p == over then 1 else 0
  }

  ghost predicate PagesOk(v: View, cap: nat, over: PageId)
    requires Dom(v)
  {
    (forall p {:trigger NodeOk(v, p)} :: p in v.pages ==> NodeOk(v, p)) &&
    (forall p {:trigger UpOk(v, p)} :: p in v.pages ==> UpOk(v, p)) &&
    (forall p {:trigger SizeOk(v, cap, over, p)} :: p in v.pages ==> SizeOk(v, cap, over, p))
  }

  // ---------- The leaf chain ----------

  function At0(chain: seq<PageId>, i: int): PageId {
    if 0 <= i < |chain| then chain[i] else INVALID_PAGE_ID
  }

  /** The i-th leaf of the chain: its neighbours are its list links and their intervals touch. */
  ghost predicate LinkOk(v: View, i: nat)
    requires Dom(v) && i < |v.chain|
  {
    var p := v.chain[i];
    p in v.pages && v.pages[p].Leaf? &&
    v.pages[p].next == At0(v.chain, i + 1) && v.pages[p].prev == At0(v.chain, i - 1) &&
    (i == 0 ==> v.spans[p].lo == NegInf) &&
    (i == |v.chain| - 1 ==> v.spans[p].hi == PosInf) &&
    (i + 1 < |v.chain| && v.chain[i + 1] in v.pages ==> v.spans[p].hi == v.spans[v.chain[i + 1]].lo)
  }

  ghost predicate Apart(v: View, i: nat, j: nat)
    requires Dom(v) && i < j < |v.chain|
  {
    v.chain[i] in v.pages && v.chain[j] in v.pages &&
    AtMost(v.spans[v.chain[i]].hi, v.spans[v.chain[j]].lo)
  }

  ghost predicate ChainOk(v: View)
    requires Dom(v)
  {
    |v.chain| > 0 &&
    (forall p {:trigger p in v.chain} :: p in v.pages && v.pages[p].Leaf? ==> p in v.chain) &&
    (forall i {:trigger LinkOk(v, i)} :: 0 <= i < |v.chain| ==> LinkOk(v, i)) &&
    (forall i, j {:trigger Apart(v, i, j)} :: 0 <= i < j < |v.chain| ==> Apart(v, i, j))
  }

  /** The full tree invariant, with room for one overfull page. */
  ghost predicate InvOver(v: View, cap: nat, over: PageId) {
    Dom(v) && v.root in v.pages &&
    v.spans[v.root].lo == NegInf && v.spans[v.root].hi == PosInf &&
    PagesOk(v, cap, over) && ChainOk(v)
  }

  ghost predicate Inv(v: View, cap: nat) {
    InvOver(v, cap, INVALID_PAGE_ID)
  }

  // ---------- What a tree stores ----------

  /** Every entry stored in some leaf. */
  ghost function Pairs(pages: map<PageId, Node>): set<Entry> {
    set p, e | p in pages && pages[p].Leaf? && e in pages[p].entries :: e
  }

  /** The entries of `pages` are the graph of the map `m`. */
  ghost predicate Stores(pages: map<PageId, Node>, m: map<Key, RowId>) {
    forall e: Entry :: e in Pairs(pages) <==> e.key in m && m[e.key] == e.value
  }

  // ---------- Small facts used everywhere ----------

  lemma BoundOrder(a: Bound, b: Bound, c: Bound)
    ensures AtMost(a, b) && Less(b, c) ==> Less(a, c)
    ensures Less(a, b) && AtMost(b, c) ==> Less(a, c)
    ensures AtMost(a, b) && AtMost(b, c) ==> AtMost(a, c)
    ensures !(Less(a, b) && AtMost(b, a))
  {
  }

  lemma Separate(v: View, i: nat, j: nat)
    requires Dom(v) && ChainOk(v) && i < |v.chain| && j < |v.chain| && i != j
    ensures v.chain[i] in v.pages && v.chain[j] in v.pages
    ensures AtMost(v.spans[v.chain[i]].hi, v.spans[v.chain[j]].lo) || AtMost(v.spans[v.chain[j]].hi, v.spans[v.chain[i]].lo)
  {
    assert if i < j then Apart(v, i, j) else Apart(v, j, i);
  }

  /** Only one leaf owns a key: two leaves whose spans both contain it are the same page. */
  lemma OneOwner(v: View, cap: nat, over: PageId, p: PageId, q: PageId, k: Key)
    requires InvOver(v, cap, over)
    requires p in v.pages && v.pages[p].Leaf? && q in v.pages && v.pages[q].Leaf?
    requires Within(v.spans[p], k) && Within(v.spans[q], k)
    ensures p == q
  {
    assert p in v.chain && q in v.chain;
    var i :| 0 <= i < |v.chain| && v.chain[i] == p;
    var j :| 0 <= j < |v.chain| && v.chain[j] == q;
    if i != j {
      Separate(v, i, j);
    }
  }

  /** A leaf that owns `k` is the only place where an entry with key `k` can be stored. */
  lemma OwnerHoldsKey(v: View, cap: nat, over: PageId, p: PageId, e: Entry)
    requires InvOver(v, cap, over)
    requires p in v.pages && v.pages[p].Leaf? && Within(v.spans[p], e.key)
    ensures e in Pairs(v.pages) <==> e in v.pages[p].entries
  {
    if e in Pairs(v.pages) {
      var q :| q in v.pages && v.pages[q].Leaf? && e in v.pages[q].entries;
      assert NodeOk(v, q);
      var i :| 0 <= i < |v.pages[q].entries| && v.pages[q].entries[i] == e;
      OneOwner(v, cap, over, p, q, e.key);
    }
  }

  /** No two stored entries share a key, so the stored entries are the graph of a map. */
  lemma KeysUnique(v: View, cap: nat, e: Entry, f: Entry)
    requires Inv(v, cap) && e in Pairs(v.pages) && f in Pairs(v.pages) && e.key == f.key
    ensures e == f
  {
    var p :| p in v.pages && v.pages[p].Leaf? && e in v.pages[p].entries;
    assert NodeOk(v, p);
    var i :| 0 <= i < |v.pages[p].entries| && v.pages[p].entries[i] == e;
    assert Within(v.spans[p], e.key);
    OwnerHoldsKey(v, cap, INVALID_PAGE_ID, p, f);
    var j :| 0 <= j < |v.pages[p].entries| && v.pages[p].entries[j] == f;
  }
}
