/**
 * Two more properties of a tree that insertion keeps: how full its pages are, and that a separator
 * just above the leaves is exactly the first key of the leaf to its right.  The second one is what
 * the merges of a deletion rely on.
 */
module BPlusBalance {
  import opened BPlusPages
  import opened BPlusInsert

  /** Halves of an overfull leaf hold at least (cap + 1) / 2 entries, of an internal node cap / 2. */
  function MinSize(n: Node, cap: nat): nat {
    if n.Leaf? then (cap + 1) / 2 else cap / 2
  }

  ghost predicate FullEnough(v: View, cap: nat, p: PageId)
    requires p in v.pages
  {
    p != v.root ==> Size(v.pages[p]) >= MinSize(v.pages[p], cap)
  }

  ghost predicate HalfFull(v: View, cap: nat) {
    forall p {:trigger FullEnough(v, cap, p)} :: p in v.pages ==> FullEnough(v, cap, p)
  }

  ghost predicate RootBranches(v: View) {
    v.root in v.pages && (v.pages[v.root].Internal? ==> |v.pages[v.root].keys| >= 1)
  }

  ghost predicate Balanced(v: View, cap: nat) {
    HalfFull(v, cap) && RootBranches(v)
  }

  predicate HasSibling(pages: map<PageId, Node>, p: PageId)
    requires p in pages
  {
    var q := pages[p].parent;
    q in pages && pages[q].Internal? && |pages[q].children| > 1
  }

  /** A leaf with a sibling is half full, but for `missing` entries. */
  ghost predicate LeafFilled(v: View, cap: nat, p: PageId, missing: nat)
    requires p in v.pages
  {
    v.pages[p].Leaf? && HasSibling(v.pages, p) ==> |v.pages[p].entries| + missing >= (cap + 1) / 2
  }

  ghost predicate LeavesFilled(v: View, cap: nat) {
    forall p {:trigger LeafFilled(v, cap, p, 0)} :: p in v.pages ==> LeafFilled(v, cap, p, 0)
  }

  /** What every insertion and every safe deletion keeps, where deletions make `Balanced` fail: a root that
      is not a leaf has a key, and leaves with a sibling are half full. */
  ghost predicate Shaped(v: View, cap: nat) {
    RootBranches(v) && LeavesFilled(v, cap)
  }

  /** Separator `i` of page `p`, if it stands above leaves, is the first key of the leaf after it. */
  ghost predicate ExactAt(pages: map<PageId, Node>, p: PageId, i: nat)
    requires p in pages && pages[p].Internal? && i < |pages[p].keys| && i + 1 < |pages[p].children|
  {
    var c := pages[p].children[i + 1];
    c in pages && pages[c].Leaf? ==> pages[c].entries != [] && pages[c].entries[0].key == pages[p].keys[i]
  }

  ghost predicate ExactPage(pages: map<PageId, Node>, p: PageId)
    requires p in pages && pages[p].Internal?
  {
    forall i {:trigger ExactAt(pages, p, i)} ::
      0 <= i < |pages[p].keys| && i + 1 < |pages[p].children| ==> ExactAt(pages, p, i)
  }

  ghost predicate Exact(pages: map<PageId, Node>) {
    forall p {:trigger ExactPage(pages, p)} :: p in pages && pages[p].Internal? ==> ExactPage(pages, p)
  }

  // ---------- Writing a leaf ----------

  /** Rewriting a leaf keeps the separators exact if the leaf has no separator of its own or keeps
      its first key. */
  lemma WriteLeafExact(v: View, cap: nat, over: PageId, p: PageId, entries: seq<Entry>)
    requires InvOver(v, cap, over) && Exact(v.pages) && p in v.pages && v.pages[p].Leaf?
    requires var q := v.pages[p].parent;
             p != v.root && q in v.pages && v.pages[q].Internal? && v.pages[q].children != [] && v.pages[q].children[0] != p ==>
               entries != [] && v.pages[p].entries != [] && entries[0].key == v.pages[p].entries[0].key
    ensures Exact(LeafView(v, p, entries).pages)
  {
    var w := LeafView(v, p, entries);
    forall x | x in w.pages && w.pages[x].Internal? ensures ExactPage(w.pages, x) {
      assert ExactPage(v.pages, x) && NodeOk(v, x);
      forall i | 0 <= i < |w.pages[x].keys| && i + 1 < |w.pages[x].children| ensures ExactAt(w.pages, x, i) {
        assert ExactAt(v.pages, x, i) && ChildOk(v, x, i + 1);
        DistinctChildren(v, cap, over, x, 0, i + 1);
        if v.pages[x].children[i + 1] == p { assert UpOk(v, p) && UpOk(v, v.root); }
      }
    }
  }

  /** A key inserted into a leaf that has a separator never becomes its first key. */
  lemma InsertedKeyNotFirst(v: View, cap: nat, p: PageId, k: Key)
    requires Inv(v, cap) && Exact(v.pages) && p in v.pages && p != v.root && v.pages[p].Leaf?
    requires Within(v.spans[p], k)
    requires var q := v.pages[p].parent;
             q in v.pages && v.pages[q].Internal? && v.pages[q].children != [] && v.pages[q].children[0] != p
    ensures v.pages[p].entries != [] && v.pages[p].entries[0].key <= k
  {
    var q := v.pages[p].parent;
    var i := ParentSlot(v, cap, INVALID_PAGE_ID, p);
    assert ExactPage(v.pages, q);
    assert ExactAt(v.pages, q, i - 1);
  }

  // ---------- Splits ----------

  lemma SplitLeafBalance(v: View, cap: nat, p: PageId, added: PageId, i: nat, pos: nat)
    requires CanSplitLeaf(v, cap, p, added, i, pos) && HalfFull(v, cap)
    ensures var w := SplitLeafView(v, p, added, i, pos);
            HalfFull(w, cap) && (v.pages[p].parent == v.root || RootBranches(v) ==> RootBranches(w))
  {
    var w := SplitLeafView(v, p, added, i, pos);
    forall x | x in w.pages ensures FullEnough(w, cap, x) {
      if x != added {
        assert FullEnough(v, cap, x);
      }
    }
  }

  lemma SplitLeafFilled(v: View, cap: nat, p: PageId, added: PageId, i: nat, pos: nat)
    requires CanSplitLeaf(v, cap, p, added, i, pos) && LeavesFilled(v, cap)
    ensures var w := SplitLeafView(v, p, added, i, pos);
            LeavesFilled(w, cap) && (v.pages[p].parent == v.root || RootBranches(v) ==> RootBranches(w))
  {
    var w := SplitLeafView(v, p, added, i, pos);
    forall x | x in w.pages ensures LeafFilled(w, cap, x, 0) {
      if x != added {
        assert LeafFilled(v, cap, x, 0) && UpOk(v, x);
      }
    }
  }

  lemma SplitInternalFilled(v: View, cap: nat, p: PageId, added: PageId, pos: nat)
    requires CanSplitInternal(v, cap, p, added, pos) && LeavesFilled(v, cap)
    ensures var w := SplitInternalView(v, p, added, pos);
            LeavesFilled(w, cap) && (v.pages[p].parent == v.root || RootBranches(v) ==> RootBranches(w))
  {
    var w := SplitInternalView(v, p, added, pos);
    SplitInternalShape(v, cap, p, added, pos);
    var half := |v.pages[p].keys| / 2 + 1;
    forall x | x in w.pages ensures LeafFilled(w, cap, x, 0) {
      if x != added {
        assert LeafFilled(v, cap, x, 0) && UpOk(v, x);
        if x in v.pages[p].children[half..] { MovedChild(v, cap, p, p, x, half); }
      }
    }
  }

  lemma GrowFilled(v: View, cap: nat, over: PageId, r: PageId)
    requires InvOver(v, cap, over) && r !in v.pages && LeavesFilled(v, cap)
    ensures LeavesFilled(GrowView(v, r), cap)
  {
    var w := GrowView(v, r);
    forall x | x in w.pages ensures LeafFilled(w, cap, x, 0) {
      if x != r {
        assert LeafFilled(v, cap, x, 0) && UpOk(v, x);
      }
    }
  }

  lemma SplitInternalBalance(v: View, cap: nat, p: PageId, added: PageId, pos: nat)
    requires CanSplitInternal(v, cap, p, added, pos) && HalfFull(v, cap)
    ensures var w := SplitInternalView(v, p, added, pos);
            HalfFull(w, cap) && (v.pages[p].parent == v.root || RootBranches(v) ==> RootBranches(w))
  {
    var w := SplitInternalView(v, p, added, pos);
    SplitInternalShape(v, cap, p, added, pos);
    forall x | x in w.pages ensures FullEnough(w, cap, x) {
      if x != added {
        assert FullEnough(v, cap, x);
      }
    }
  }

  lemma SplitLeafExact(v: View, cap: nat, p: PageId, added: PageId, i: nat, pos: nat)
    requires CanSplitLeaf(v, cap, p, added, i, pos) && Exact(v.pages)
    ensures Exact(SplitLeafView(v, p, added, i, pos).pages)
  {
    var w := SplitLeafView(v, p, added, i, pos);
    var q := v.pages[p].parent;
    forall x | x in w.pages && w.pages[x].Internal? ensures ExactPage(w.pages, x) {
      assert ExactPage(v.pages, x) && NodeOk(v, x);
      forall j | 0 <= j < |w.pages[x].keys| && j + 1 < |w.pages[x].children| ensures ExactAt(w.pages, x, j) {
        if x != q || j < pos {
          assert ExactAt(v.pages, x, j) && ChildOk(v, x, j + 1);
        } else if j > pos {
          assert ExactAt(v.pages, x, j - 1) && ChildOk(v, x, j);
        }
      }
    }
  }

  lemma SplitInternalExact(v: View, cap: nat, p: PageId, added: PageId, pos: nat)
    requires CanSplitInternal(v, cap, p, added, pos) && Exact(v.pages)
    ensures Exact(SplitInternalView(v, p, added, pos).pages)
  {
    var w := SplitInternalView(v, p, added, pos);
    SplitInternalShape(v, cap, p, added, pos);
    forall x | x in w.pages && w.pages[x].Internal? ensures ExactPage(w.pages, x) {
      SplitInternalExactPage(v, cap, p, added, pos, x);
    }
  }

  lemma SplitInternalExactPage(v: View, cap: nat, p: PageId, added: PageId, pos: nat, x: PageId)
    requires CanSplitInternal(v, cap, p, added, pos) && Exact(v.pages)
    requires x in SplitInternalView(v, p, added, pos).pages && SplitInternalView(v, p, added, pos).pages[x].Internal?
    ensures ExactPage(SplitInternalView(v, p, added, pos).pages, x)
  {
    var w := SplitInternalView(v, p, added, pos);
    SplitInternalShape(v, cap, p, added, pos);
    forall j | 0 <= j < |w.pages[x].keys| && j + 1 < |w.pages[x].children| ensures ExactAt(w.pages, x, j) {
      if !(x == v.pages[p].parent && j == pos) {
        SplitInternalExactAt(v, cap, p, added, pos, x, j);
      }
    }
  }

  /** A separator that survives the split was a separator of the old tree, above the same child. */
  lemma SplitInternalOrigin(v: View, cap: nat, p: PageId, added: PageId, pos: nat, x: PageId, j: nat) returns (y: PageId, k: nat)
    requires CanSplitInternal(v, cap, p, added, pos)
    requires var w := SplitInternalView(v, p, added, pos);
             x in w.pages && w.pages[x].Internal? && j < |w.pages[x].keys| && j + 1 < |w.pages[x].children|
    requires !(x == v.pages[p].parent && j == pos)
    ensures y in v.pages && v.pages[y].Internal? && k < |v.pages[y].keys| && k + 1 < |v.pages[y].children|
    ensures var w := SplitInternalView(v, p, added, pos);
            w.pages[x].keys[j] == v.pages[y].keys[k] && w.pages[x].children[j + 1] == v.pages[y].children[k + 1]
  {
    var q, mid := v.pages[p].parent, |v.pages[p].keys| / 2;
    SplitInternalShape(v, cap, p, added, pos);
    if x == added {
      y, k := p, mid + 1 + j;
    } else if x == q && j > pos {
      y, k := q, j - 1;
    } else {
      y, k := x, j;
    }
  }

  lemma SplitInternalExactAt(v: View, cap: nat, p: PageId, added: PageId, pos: nat, x: PageId, j: nat)
    requires CanSplitInternal(v, cap, p, added, pos) && Exact(v.pages)
    requires var w := SplitInternalView(v, p, added, pos);
             x in w.pages && w.pages[x].Internal? && j < |w.pages[x].keys| && j + 1 < |w.pages[x].children|
    requires !(x == v.pages[p].parent && j == pos)
    ensures ExactAt(SplitInternalView(v, p, added, pos).pages, x, j)
  {
    var y, k := SplitInternalOrigin(v, cap, p, added, pos, x, j);
    SplitInternalShape(v, cap, p, added, pos);
    assert NodeOk(v, y) && ChildOk(v, y, k + 1);
    assert ExactPage(v.pages, y) && ExactAt(v.pages, y, k);
  }

  lemma GrowBalance(v: View, cap: nat, r: PageId)
    requires Dom(v) && v.root in v.pages && r !in v.pages && HalfFull(v, cap)
    requires Size(v.pages[v.root]) >= MinSize(v.pages[v.root], cap)
    ensures HalfFull(GrowView(v, r), cap)
  {
    var w := GrowView(v, r);
    forall x | x in w.pages ensures FullEnough(w, cap, x) {
      if x != r {
        assert FullEnough(v, cap, x);
      }
    }
  }

  lemma GrowExact(v: View, cap: nat, over: PageId, r: PageId)
    requires InvOver(v, cap, over) && r !in v.pages && Exact(v.pages)
    ensures Exact(GrowView(v, r).pages)
  {
    var w := GrowView(v, r);
    forall x | x in w.pages && w.pages[x].Internal? ensures ExactPage(w.pages, x) {
      if x != r {
        assert ExactPage(v.pages, x) && NodeOk(v, x);
        forall j | 0 <= j < |w.pages[x].keys| && j + 1 < |w.pages[x].children| ensures ExactAt(w.pages, x, j) {
          assert ExactAt(v.pages, x, j) && ChildOk(v, x, j + 1);
        }
      }
    }
  }
}
