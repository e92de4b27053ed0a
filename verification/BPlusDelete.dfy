/**
 * The page updates of a deletion, as functions on the page map, and the lemmas that each of them
 * keeps the tree invariant: moving entries between neighbouring leaves (both borrows), merging two
 * neighbouring leaves, and dropping an empty root.
 */
module BPlusDelete {
  import opened BPlusPages
  import opened BPlusInsert
  import opened BPlusBalance

  function DropAt<T>(s: seq<T>, i: nat): (r: seq<T>)
    requires i < |s|
  {
    s[..i] + s[i + 1..]
  }

  lemma DropAtMembers<T>(s: seq<T>, i: nat, x: T)
    requires i < |s|
    ensures x in DropAt(s, i) ==> x in s
    ensures x in s && x != s[i] ==> x in DropAt(s, i)
  {
    assert s == s[..i] + [s[i]] + s[i + 1..];
  }

  /** Two neighbouring leaves below one parent. */
  ghost predicate Neighbours(v: View, cap: nat, q: PageId, i: nat) {
    Inv(v, cap) && q in v.pages && v.pages[q].Internal? && InternalOk(v, q) &&
    i + 1 < |v.pages[q].children| && ChildOk(v, q, i) && ChildOk(v, q, i + 1) &&
    v.pages[v.pages[q].children[i]].Leaf? && v.pages[v.pages[q].children[i + 1]].Leaf?
  }

  /** A leaf's siblings are leaves: they lie on the same level. */
  lemma SiblingIsLeaf(v: View, cap: nat, q: PageId, i: nat, j: nat)
    requires Inv(v, cap) && q in v.pages && v.pages[q].Internal?
    requires i < |v.pages[q].children| && j < |v.pages[q].children|
    requires var c := v.pages[q].children[i]; c in v.pages && v.pages[c].Leaf?
    ensures v.pages[q].children[j] in v.pages && v.pages[v.pages[q].children[j]].Leaf?
    ensures InternalOk(v, q) && ChildOk(v, q, i) && ChildOk(v, q, j)
  {
    assert NodeOk(v, q);
    assert ChildOk(v, q, i) && ChildOk(v, q, j);
    assert NodeOk(v, v.pages[q].children[i]) && NodeOk(v, v.pages[q].children[j]);
  }

  /** Neighbours below a parent are neighbours in the chain. */
  lemma NeighboursInChain(v: View, cap: nat, q: PageId, i: nat) returns (a: nat)
    requires Neighbours(v, cap, q, i)
    ensures a + 1 < |v.chain| && v.chain[a] == v.pages[q].children[i] && v.chain[a + 1] == v.pages[q].children[i + 1]
    ensures v.pages[q].children[i] != v.pages[q].children[i + 1]
    ensures v.pages[v.pages[q].children[i]].next == v.pages[q].children[i + 1]
  {
    var l, r := v.pages[q].children[i], v.pages[q].children[i + 1];
    assert NodeOk(v, l) && NodeOk(v, r);
    assert l in v.chain && r in v.chain;
    a :| 0 <= a < |v.chain| && v.chain[a] == l;
    var b :| 0 <= b < |v.chain| && v.chain[b] == r;
    DistinctChildren(v, cap, INVALID_PAGE_ID, q, i, i + 1);
    ChainStep(v, cap, a, b);
    assert LinkOk(v, a);
  }

  /** The leaf that starts where the a-th leaf ends is the next one. */
  lemma ChainStep(v: View, cap: nat, a: nat, b: nat)
    requires Inv(v, cap) && a < |v.chain| && b < |v.chain| && a != b
    requires v.chain[a] in v.pages && v.chain[b] in v.pages
    requires v.spans[v.chain[a]].hi == v.spans[v.chain[b]].lo
    ensures b == a + 1
  {
    ChainOrder(v, cap, a, b);
  }

  lemma ChainOrder(v: View, cap: nat, a: nat, b: nat)
    requires Inv(v, cap) && a < |v.chain| && b < |v.chain| && a != b
    ensures var p, q := v.chain[a], v.chain[b];
            p in v.pages && q in v.pages &&
            Less(v.spans[p].lo, v.spans[p].hi) && Less(v.spans[q].lo, v.spans[q].hi) &&
            (b < a ==> AtMost(v.spans[q].hi, v.spans[p].lo)) && (a + 1 < b ==> Less(v.spans[p].hi, v.spans[q].lo))
  {
    assert LinkOk(v, a) && LinkOk(v, b) && NodeOk(v, v.chain[a]) && NodeOk(v, v.chain[b]);
    assert b < a ==> Apart(v, b, a);
    if a + 1 < b {
      assert LinkOk(v, a + 1) && NodeOk(v, v.chain[a + 1]) && Apart(v, a + 1, b);
    }
  }

  // ---------- Moving entries between neighbours ----------

  /** The neighbours at slots `i` and `i + 1` of `q` now hold `le` and `re`. */
  function ShiftPages(pages: map<PageId, Node>, q: PageId, i: nat, le: seq<Entry>, re: seq<Entry>): map<PageId, Node>
    requires q in pages && pages[q].Internal? && i < |pages[q].keys| && i + 1 < |pages[q].children| && re != []
    requires var l, r := pages[q].children[i], pages[q].children[i + 1];
             l in pages && pages[l].Leaf? && r in pages && pages[r].Leaf?
  {
    var l, r := pages[q].children[i], pages[q].children[i + 1];
    pages[l := pages[l].(entries := le)][r := pages[r].(entries := re)]
         [q := pages[q].(keys := pages[q].keys[i := re[0].key])]
  }

  ghost predicate CanShift(v: View, cap: nat, q: PageId, i: nat, le: seq<Entry>, re: seq<Entry>) {
    Neighbours(v, cap, q, i) && le != [] && re != [] && |le| <= cap && |re| <= cap &&
    le + re == v.pages[v.pages[q].children[i]].entries + v.pages[v.pages[q].children[i + 1]].entries
  }

  function ShiftView(v: View, q: PageId, i: nat, le: seq<Entry>, re: seq<Entry>): View
    requires q in v.pages && v.pages[q].Internal? && i < |v.pages[q].keys| && i + 1 < |v.pages[q].children| && re != []
    requires var l, r := v.pages[q].children[i], v.pages[q].children[i + 1];
             l in v.pages && v.pages[l].Leaf? && r in v.pages && v.pages[r].Leaf? && l in v.spans && r in v.spans
  {
    var l, r := v.pages[q].children[i], v.pages[q].children[i + 1];
    View(ShiftPages(v.pages, q, i, le, re), v.root,
         v.spans[l := v.spans[l].(hi := At(re[0].key))][r := v.spans[r].(lo := At(re[0].key))], v.chain)
  }

  /** Concatenated neighbours are sorted and lie in the joint span. */
  lemma JointEntries(v: View, cap: nat, q: PageId, i: nat)
    requires Neighbours(v, cap, q, i)
    ensures var l, r := v.pages[q].children[i], v.pages[q].children[i + 1];
            LeafOk(v.pages[l].entries + v.pages[r].entries, v.spans[l].(hi := v.spans[r].hi))
  {
    var l, r := v.pages[q].children[i], v.pages[q].children[i + 1];
    assert NodeOk(v, l) && NodeOk(v, r);
  }

  lemma ShiftLeaves(v: View, cap: nat, q: PageId, i: nat, le: seq<Entry>, re: seq<Entry>)
    requires CanShift(v, cap, q, i, le, re)
    ensures var w := ShiftView(v, q, i, le, re);
            var l, r, sep := v.pages[q].children[i], v.pages[q].children[i + 1], At(re[0].key);
            l != r && Dom(w) && LeafOk(le, w.spans[l]) && LeafOk(re, w.spans[r]) &&
            Less(v.spans[l].lo, sep) && Less(sep, v.spans[r].hi)
  {
    var l, r := v.pages[q].children[i], v.pages[q].children[i + 1];
    JointEntries(v, cap, q, i);
    DistinctChildren(v, cap, INVALID_PAGE_ID, q, i, i + 1);
    var all := le + re;
    assert all[0] == le[0] && all[|le|] == re[0];
    assert forall j :: 0 <= j < |le| ==> all[j] == le[j];
    assert forall j :: 0 <= j < |re| ==> all[|le| + j] == re[j];
  }

  lemma ShiftParent(v: View, cap: nat, q: PageId, i: nat, le: seq<Entry>, re: seq<Entry>)
    requires CanShift(v, cap, q, i, le, re)
    ensures Dom(ShiftView(v, q, i, le, re)) && NodeOk(ShiftView(v, q, i, le, re), q)
  {
    var w := ShiftView(v, q, i, le, re);
    var l, r := v.pages[q].children[i], v.pages[q].children[i + 1];
    ShiftLeaves(v, cap, q, i, le, re);
    assert NodeOk(v, q);
    ReplaceKeySorted(v.pages[q].keys, v.spans[q], i, re[0].key);
    forall j | 0 <= j < |w.pages[q].children| ensures ChildOk(w, q, j) {
      assert ChildOk(v, q, j);
      if j < i { DistinctChildren(v, cap, INVALID_PAGE_ID, q, j, i); DistinctChildren(v, cap, INVALID_PAGE_ID, q, j, i + 1); }
      if j > i + 1 { DistinctChildren(v, cap, INVALID_PAGE_ID, q, i, j); DistinctChildren(v, cap, INVALID_PAGE_ID, q, i + 1, j); }
    }
  }

  lemma ReplaceKeySorted(keys: seq<Key>, s: Span, i: nat, key: Key)
    requires KeysOk(keys, s) && i < |keys|
    requires Less(ChildLo(keys, s, i), At(key)) && Less(At(key), ChildHi(keys, s, i + 1))
    ensures KeysOk(keys[i := key], s)
  {
    assert forall j :: 0 <= j < i ==> keys[j] <= keys[i - 1];
    assert forall j :: i < j < |keys| ==> keys[i + 1] <= keys[j];
  }

  lemma ShiftChain(v: View, cap: nat, q: PageId, i: nat, le: seq<Entry>, re: seq<Entry>)
    requires CanShift(v, cap, q, i, le, re)
    ensures Dom(ShiftView(v, q, i, le, re)) && ChainOk(ShiftView(v, q, i, le, re))
  {
    var w := ShiftView(v, q, i, le, re);
    var a := NeighboursInChain(v, cap, q, i);
    ShiftLeaves(v, cap, q, i, le, re);
    ChainDistinct(v);
    forall b | 0 <= b < |w.chain| ensures LinkOk(w, b) {
      assert LinkOk(v, b);
      assert b + 1 < |v.chain| ==> LinkOk(v, b + 1);
    }
    forall b, c | 0 <= b < c < |w.chain| ensures Apart(w, b, c) {
      assert Apart(v, b, c) && LinkOk(v, b) && LinkOk(v, c);
      assert b == a && c > a + 1 ==> Apart(v, a + 1, c);
      assert c == a + 1 && b < a ==> Apart(v, b, a);
    }
  }

  /** Both borrows keep the tree invariant. */
  lemma ShiftKeepsInv(v: View, cap: nat, q: PageId, i: nat, le: seq<Entry>, re: seq<Entry>)
    requires CanShift(v, cap, q, i, le, re)
    ensures Inv(ShiftView(v, q, i, le, re), cap)
  {
    var w := ShiftView(v, q, i, le, re);
    var l, r := v.pages[q].children[i], v.pages[q].children[i + 1];
    ShiftLeaves(v, cap, q, i, le, re);
    ShiftParent(v, cap, q, i, le, re);
    ShiftChain(v, cap, q, i, le, re);
    forall x | x in w.pages ensures NodeOk(w, x) && UpOk(w, x) && SizeOk(w, cap, INVALID_PAGE_ID, x) {
      assert NodeOk(v, x) && UpOk(v, x) && SizeOk(v, cap, INVALID_PAGE_ID, x);
      if x != q && v.pages[x].Internal? {
        forall j | 0 <= j < |w.pages[x].children| ensures ChildOk(w, x, j) {
          assert ChildOk(v, x, j);
        }
      }
    }
  }

  /** Moving entries keeps separators exact unless it changes the first key of a leaf that has one. */
  lemma ShiftExact(v: View, cap: nat, q: PageId, i: nat, le: seq<Entry>, re: seq<Entry>)
    requires CanShift(v, cap, q, i, le, re) && Exact(v.pages)
    requires i > 0 ==> v.pages[v.pages[q].children[i]].entries != []
    ensures Exact(ShiftView(v, q, i, le, re).pages)
  {
    var w := ShiftView(v, q, i, le, re);
    var l, r := v.pages[q].children[i], v.pages[q].children[i + 1];
    ShiftLeaves(v, cap, q, i, le, re);
    assert i > 0 ==> (le + re)[0] == v.pages[l].entries[0];
    forall x | x in w.pages && w.pages[x].Internal? ensures ExactPage(w.pages, x) {
      assert ExactPage(v.pages, x) && NodeOk(v, x);
      forall j | 0 <= j < |w.pages[x].keys| && j + 1 < |w.pages[x].children| ensures ExactAt(w.pages, x, j) {
        assert ExactAt(v.pages, x, j) && ChildOk(v, x, j + 1);
        if x == q && j + 1 < i { DistinctChildren(v, cap, INVALID_PAGE_ID, q, j + 1, i); }
        if x == q && j > i { DistinctChildren(v, cap, INVALID_PAGE_ID, q, i + 1, j + 1); }
        if x == q && j + 1 != i { DistinctChildren(v, cap, INVALID_PAGE_ID, q, if i < j + 1 then i else j + 1, if i < j + 1 then j + 1 else i); }
      }
    }
  }

  lemma ShiftPairs(v: View, cap: nat, q: PageId, i: nat, le: seq<Entry>, re: seq<Entry>)
    requires CanShift(v, cap, q, i, le, re)
    ensures Pairs(ShiftView(v, q, i, le, re).pages) == Pairs(v.pages)
  {
    var w := ShiftView(v, q, i, le, re);
    var l, r := v.pages[q].children[i], v.pages[q].children[i + 1];
    ShiftLeaves(v, cap, q, i, le, re);
    var all := le + re;
    assert all == v.pages[l].entries + v.pages[r].entries;
    forall e ensures e in Pairs(w.pages) <==> e in Pairs(v.pages) {
      if e in Pairs(w.pages) {
        var x :| x in w.pages && w.pages[x].Leaf? && e in w.pages[x].entries;
        if x == l || x == r { assert e in all; }
        assert e in v.pages[if (x == l || x == r) && e in v.pages[l].entries then l else if x == l then r else x].entries;
      }
      if e in Pairs(v.pages) {
        var x :| x in v.pages && v.pages[x].Leaf? && e in v.pages[x].entries;
        if x == l || x == r { assert e in all; }
        assert e in w.pages[if (x == l || x == r) && e in le then l else if x == l then r else x].entries;
      }
    }
  }

  // ---------- Merging neighbours ----------

  /** The neighbours at slots `i` and `i + 1` of `q` become one leaf; the right page is freed. */
  function MergedPages(pages: map<PageId, Node>, q: PageId, i: nat): map<PageId, Node>
    requires q in pages && pages[q].Internal? && i < |pages[q].keys| && i + 1 < |pages[q].children|
    requires var l, r := pages[q].children[i], pages[q].children[i + 1];
             l in pages && pages[l].Leaf? && r in pages && pages[r].Leaf?
  {
    var l, r := pages[q].children[i], pages[q].children[i + 1];
    var joined := pages[l := pages[l].(entries := pages[l].entries + pages[r].entries, next := pages[r].next)];
    var linked := WithPrev(joined, pages[r].next, l);
    linked[q := pages[q].(keys := DropAt(pages[q].keys, i), children := DropAt(pages[q].children, i + 1))] - {r}
  }

  ghost predicate CanMerge(v: View, cap: nat, q: PageId, i: nat) {
    Neighbours(v, cap, q, i) &&
    |v.pages[v.pages[q].children[i]].entries| + |v.pages[v.pages[q].children[i + 1]].entries| <= cap
  }

  function MergeView(v: View, q: PageId, i: nat, a: nat): View
    requires q in v.pages && v.pages[q].Internal? && i < |v.pages[q].keys| && i + 1 < |v.pages[q].children|
    requires var l, r := v.pages[q].children[i], v.pages[q].children[i + 1];
             l in v.pages && v.pages[l].Leaf? && r in v.pages && v.pages[r].Leaf? && l in v.spans && r in v.spans
    requires a + 1 < |v.chain|
  {
    var l, r := v.pages[q].children[i], v.pages[q].children[i + 1];
    View(MergedPages(v.pages, q, i), v.root,
         v.spans[l := v.spans[l].(hi := v.spans[r].hi)] - {r}, DropAt(v.chain, a + 1))
  }

  ghost predicate MergeAt(v: View, cap: nat, q: PageId, i: nat, a: nat) {
    CanMerge(v, cap, q, i) && a + 1 < |v.chain| && v.pages[q].children[i] != v.pages[q].children[i + 1] &&
    v.chain[a] == v.pages[q].children[i] && v.chain[a + 1] == v.pages[q].children[i + 1]
  }

  lemma MergeLeaf(v: View, cap: nat, q: PageId, i: nat, a: nat)
    requires MergeAt(v, cap, q, i, a)
    ensures var w, l := MergeView(v, q, i, a), v.pages[q].children[i]; Dom(w) && l in w.pages && NodeOk(w, l)
  {
    var w := MergeView(v, q, i, a);
    var l, r := v.pages[q].children[i], v.pages[q].children[i + 1];
    JointEntries(v, cap, q, i);
    assert NodeOk(v, l) && NodeOk(v, r);
    assert LinkOk(v, a) && LinkOk(v, a + 1);
    NextIsOther(v, cap, a + 1);
  }

  /** A leaf's right link never points back at it or at the leaf before it. */
  lemma NextIsOther(v: View, cap: nat, a: nat)
    requires Inv(v, cap) && a < |v.chain|
    ensures v.chain[a] in v.pages && v.pages[v.chain[a]].Leaf? && v.pages[v.chain[a]].next != v.chain[a]
    ensures a > 0 ==> v.pages[v.chain[a]].next != v.chain[a - 1]
  {
    ChainDistinct(v);
    assert LinkOk(v, a);
    assert a > 0 ==> LinkOk(v, a - 1);
  }

  lemma DropKeySorted(keys: seq<Key>, s: Span, i: nat)
    requires KeysOk(keys, s) && i < |keys|
    ensures KeysOk(DropAt(keys, i), s)
  {
    var kept := DropAt(keys, i);
    assert forall j :: 0 <= j < |kept| ==> kept[j] == if j < i then keys[j] else keys[j + 1];
  }

  lemma MergeParentChild(v: View, cap: nat, q: PageId, i: nat, a: nat, j: nat)
    requires MergeAt(v, cap, q, i, a) && j + 1 < |v.pages[q].children|
    ensures var w := MergeView(v, q, i, a);
            Dom(w) && q in w.pages && w.pages[q].Internal? &&
            j < |w.pages[q].children| == |w.pages[q].keys| + 1 && ChildOk(w, q, j)
  {
    var k := if j <= i then j else j + 1;
    assert ChildOk(v, q, k);
    if k < i { DistinctChildren(v, cap, INVALID_PAGE_ID, q, k, i); DistinctChildren(v, cap, INVALID_PAGE_ID, q, k, i + 1); }
    if k > i + 1 { DistinctChildren(v, cap, INVALID_PAGE_ID, q, i, k); DistinctChildren(v, cap, INVALID_PAGE_ID, q, i + 1, k); }
  }

  lemma MergeParent(v: View, cap: nat, q: PageId, i: nat, a: nat)
    requires MergeAt(v, cap, q, i, a)
    ensures Dom(MergeView(v, q, i, a)) && q in MergeView(v, q, i, a).pages && NodeOk(MergeView(v, q, i, a), q)
  {
    var w := MergeView(v, q, i, a);
    assert NodeOk(v, q);
    DropKeySorted(v.pages[q].keys, v.spans[q], i);
    forall j | 0 <= j < |w.pages[q].children| ensures ChildOk(w, q, j) {
      MergeParentChild(v, cap, q, i, a, j);
    }
  }

  lemma MergeOther(v: View, cap: nat, q: PageId, i: nat, a: nat, x: PageId)
    requires MergeAt(v, cap, q, i, a) && x in v.pages && x != q && x !in v.pages[q].children[i..i + 2]
    ensures Dom(MergeView(v, q, i, a)) && x in MergeView(v, q, i, a).pages && NodeOk(MergeView(v, q, i, a), x)
  {
    var w := MergeView(v, q, i, a);
    assert v.pages[q].children[i..i + 2] == [v.pages[q].children[i], v.pages[q].children[i + 1]];
    assert NodeOk(v, x);
    if v.pages[x].Internal? {
      forall j | 0 <= j < |w.pages[x].children| ensures ChildOk(w, x, j) {
        assert ChildOk(v, x, j);
      }
    }
  }

  lemma MergeUp(v: View, cap: nat, q: PageId, i: nat, a: nat, x: PageId)
    requires MergeAt(v, cap, q, i, a) && x in MergeView(v, q, i, a).pages
    ensures UpOk(MergeView(v, q, i, a), x) && SizeOk(MergeView(v, q, i, a), cap, INVALID_PAGE_ID, x)
  {
    assert UpOk(v, x) && SizeOk(v, cap, INVALID_PAGE_ID, x);
    DropAtMembers(v.pages[q].children, i + 1, x);
  }

  lemma MergeLink(v: View, cap: nat, q: PageId, i: nat, a: nat, b: nat)
    requires MergeAt(v, cap, q, i, a) && b + 1 < |v.chain|
    requires forall j, k :: 0 <= j < k < |v.chain| ==> v.chain[j] != v.chain[k]
    ensures Dom(MergeView(v, q, i, a)) && LinkOk(MergeView(v, q, i, a), b)
  {
    var w := MergeView(v, q, i, a);
    assert LinkOk(v, a) && LinkOk(v, a + 1);
    assert a + 2 < |v.chain| ==> LinkOk(v, a + 2);
    if b < a {
      assert LinkOk(v, b) && LinkOk(v, b + 1) && w.chain[b + 1] == v.chain[b + 1];
    } else if b > a {
      assert LinkOk(v, b + 1);
      assert b + 2 < |v.chain| ==> LinkOk(v, b + 2) && w.chain[b + 1] == v.chain[b + 2];
    } else {
      assert b + 1 < |w.chain| ==> w.chain[b + 1] == v.chain[b + 2];
    }
  }

  lemma MergeApart(v: View, cap: nat, q: PageId, i: nat, a: nat, b: nat, c: nat)
    requires MergeAt(v, cap, q, i, a) && b < c && c + 1 < |v.chain|
    requires forall j, k :: 0 <= j < k < |v.chain| ==> v.chain[j] != v.chain[k]
    ensures Dom(MergeView(v, q, i, a)) && Apart(MergeView(v, q, i, a), b, c)
  {
    var w := MergeView(v, q, i, a);
    var b', c' := if b <= a then b else b + 1, if c <= a then c else c + 1;
    assert w.chain[b] == v.chain[b'] && w.chain[c] == v.chain[c'];
    assert Apart(v, b', c');
    assert b == a ==> Apart(v, a + 1, c');
  }

  lemma MergeChain(v: View, cap: nat, q: PageId, i: nat, a: nat)
    requires MergeAt(v, cap, q, i, a)
    ensures Dom(MergeView(v, q, i, a)) && ChainOk(MergeView(v, q, i, a))
  {
    var w := MergeView(v, q, i, a);
    ChainDistinct(v);
    forall x | x in w.pages && w.pages[x].Leaf? ensures x in w.chain {
      assert x in v.chain;
      DropAtMembers(v.chain, a + 1, x);
    }
    forall b | 0 <= b < |w.chain| ensures LinkOk(w, b) {
      MergeLink(v, cap, q, i, a, b);
    }
    forall b, c | 0 <= b < c < |w.chain| ensures Apart(w, b, c) {
      MergeApart(v, cap, q, i, a, b, c);
    }
  }

  /** Both merges keep the tree invariant. */
  lemma MergeKeepsInv(v: View, cap: nat, q: PageId, i: nat, a: nat)
    requires MergeAt(v, cap, q, i, a)
    ensures Inv(MergeView(v, q, i, a), cap)
  {
    var w := MergeView(v, q, i, a);
    var l, r := v.pages[q].children[i], v.pages[q].children[i + 1];
    assert UpOk(v, r) && UpOk(v, q);
    MergeLeaf(v, cap, q, i, a);
    MergeParent(v, cap, q, i, a);
    MergeChain(v, cap, q, i, a);
    forall x | x in w.pages ensures NodeOk(w, x) {
      if x != l && x != q { MergeOther(v, cap, q, i, a, x); }
    }
    forall x | x in w.pages ensures UpOk(w, x) && SizeOk(w, cap, INVALID_PAGE_ID, x) {
      MergeUp(v, cap, q, i, a, x);
    }
  }

  lemma MergeExact(v: View, cap: nat, q: PageId, i: nat, a: nat)
    requires MergeAt(v, cap, q, i, a) && Exact(v.pages)
    requires i > 0 ==> v.pages[v.pages[q].children[i]].entries != []
    ensures Exact(MergeView(v, q, i, a).pages)
  {
    var w := MergeView(v, q, i, a);
    forall x | x in w.pages && w.pages[x].Internal? ensures ExactPage(w.pages, x) {
      assert ExactPage(v.pages, x) && NodeOk(v, x);
      forall j | 0 <= j < |w.pages[x].keys| && j + 1 < |w.pages[x].children| ensures ExactAt(w.pages, x, j) {
        MergeExactAt(v, cap, q, i, a, x, j);
      }
    }
  }

  lemma MergeExactAt(v: View, cap: nat, q: PageId, i: nat, a: nat, x: PageId, j: nat)
    requires MergeAt(v, cap, q, i, a) && x in v.pages && v.pages[x].Internal? && ExactPage(v.pages, x) && NodeOk(v, x)
    requires i > 0 ==> v.pages[v.pages[q].children[i]].entries != []
    requires var w := MergeView(v, q, i, a);
             x in w.pages && w.pages[x].Internal? && j < |w.pages[x].keys| && j + 1 < |w.pages[x].children|
    ensures ExactAt(MergeView(v, q, i, a).pages, x, j)
  {
    hide PagesOk, ChainOk;
    var w := MergeView(v, q, i, a);
    var k := if x == q && j >= i then j + 1 else j;
    assert ExactAt(v.pages, x, k) && ChildOk(v, x, k + 1);
    assert w.pages[x].keys[j] == v.pages[x].keys[k] && w.pages[x].children[j + 1] == v.pages[x].children[k + 1];
    if x == q && k + 1 != i { DistinctChildren(v, cap, INVALID_PAGE_ID, q, if i < k + 1 then i else k + 1, if i < k + 1 then k + 1 else i); }
  }

  lemma MergePairs(v: View, cap: nat, q: PageId, i: nat, a: nat)
    requires MergeAt(v, cap, q, i, a)
    ensures Pairs(MergeView(v, q, i, a).pages) == Pairs(v.pages)
  {
    var w := MergeView(v, q, i, a);
    var l, r := v.pages[q].children[i], v.pages[q].children[i + 1];
    NextIsOther(v, cap, a + 1);
    forall e ensures e in Pairs(w.pages) <==> e in Pairs(v.pages) {
      if e in Pairs(w.pages) {
        var x :| x in w.pages && w.pages[x].Leaf? && e in w.pages[x].entries;
        assert e in v.pages[if x == l && e in v.pages[r].entries then r else x].entries;
      }
      if e in Pairs(v.pages) {
        var x :| x in v.pages && v.pages[x].Leaf? && e in v.pages[x].entries;
        assert e in w.pages[if x == r then l else x].entries;
      }
    }
  }

  // ---------- Dropping an empty root ----------

  function CollapseView(v: View): View
    requires v.root in v.pages && v.pages[v.root].Internal? && v.pages[v.root].children != []
    requires v.pages[v.root].children[0] in v.pages
  {
    var c := v.pages[v.root].children[0];
    View(v.pages[c := v.pages[c].(parent := INVALID_PAGE_ID)] - {v.root}, c, v.spans - {v.root}, v.chain)
  }

  ghost predicate EmptyRoot(v: View, cap: nat) {
    Inv(v, cap) && v.pages[v.root].Internal? && v.pages[v.root].keys == [] && |v.pages[v.root].children| == 1 &&
    ChildOk(v, v.root, 0)
  }

  /** Dropping a root without keys keeps the invariant and everything stored. */
  lemma CollapseKeepsInv(v: View, cap: nat)
    requires EmptyRoot(v, cap)
    ensures Inv(CollapseView(v), cap) && Pairs(CollapseView(v).pages) == Pairs(v.pages)
    ensures Exact(v.pages) ==> Exact(CollapseView(v).pages)
  {
    var w, c := CollapseView(v), v.pages[v.root].children[0];
    assert UpOk(v, v.root) && UpOk(v, c);
    forall x | x in w.pages ensures NodeOk(w, x) && UpOk(w, x) && SizeOk(w, cap, INVALID_PAGE_ID, x) {
      assert NodeOk(v, x) && UpOk(v, x) && SizeOk(v, cap, INVALID_PAGE_ID, x);
      if v.pages[x].Internal? {
        forall j | 0 <= j < |w.pages[x].children| ensures ChildOk(w, x, j) {
          assert ChildOk(v, x, j) && UpOk(v, v.pages[x].children[j]);
        }
      }
    }
    SameChain(v, w);
    SameEntriesSamePairs(v.pages, w.pages);
    if Exact(v.pages) {
      forall x | x in w.pages && w.pages[x].Internal? ensures ExactPage(w.pages, x) {
        assert ExactPage(v.pages, x) && NodeOk(v, x);
        forall j | 0 <= j < |w.pages[x].keys| && j + 1 < |w.pages[x].children| ensures ExactAt(w.pages, x, j) {
          assert ExactAt(v.pages, x, j) && ChildOk(v, x, j + 1);
        }
      }
    }
  }
}
