/**
 * Walking the leaf chain: what has been collected when a range search stands at the i-th leaf, and
 * why it loses nothing by starting at the leaf of the lower end and stopping at the first key above
 * the upper end.
 */
module BPlusRange {
  import opened BPlusPages

  /** The lower end of the i-th leaf, or the end of all keys. */
  ghost function Frontier(v: View, i: nat): Bound
    requires Dom(v)
  {
    if i < |v.chain| && v.chain[i] in v.pages then v.spans[v.chain[i]].lo else PosInf
  }

  /** `results` is, in order, exactly what is stored between `min` and `max` and below `b`. */
  ghost predicate RangeUpTo(v: View, results: seq<Entry>, min: Key, max: Key, b: Bound) {
    SortedEntries(results) &&
    forall e {:trigger e in results} {:trigger e in Pairs(v.pages)} ::
      e in results <==> e in Pairs(v.pages) && min <= e.key <= max && Less(At(e.key), b)
  }

  lemma ChainIndex(v: View, cap: nat, p: PageId) returns (i: nat)
    requires Inv(v, cap) && p in v.pages && v.pages[p].Leaf?
    ensures i < |v.chain| && v.chain[i] == p && Frontier(v, i) == v.spans[p].lo
  {
    assert p in v.chain;
    i :| 0 <= i < |v.chain| && v.chain[i] == p;
  }

  lemma RangeLeaf(v: View, cap: nat, i: nat, min: Key, max: Key, results: seq<Entry>)
    requires Inv(v, cap) && i <= |v.chain| && At0(v.chain, i) != INVALID_PAGE_ID
    ensures i < |v.chain| && v.chain[i] in v.pages && v.pages[v.chain[i]].Leaf?
    ensures LeafOk(v.pages[v.chain[i]].entries, v.spans[v.chain[i]])
    ensures v.pages[v.chain[i]].next == At0(v.chain, i + 1)
    ensures Frontier(v, i) == v.spans[v.chain[i]].lo && Frontier(v, i + 1) == v.spans[v.chain[i]].hi
  {
    assert LinkOk(v, i) && NodeOk(v, v.chain[i]);
    assert i + 1 < |v.chain| ==> LinkOk(v, i + 1);
  }

  /** One more leaf moves the frontier to the upper end of that leaf. */
  lemma RangeExtends(v: View, cap: nat, i: nat, min: Key, max: Key, results: seq<Entry>, found: seq<Entry>)
    requires Inv(v, cap) && i < |v.chain| && v.chain[i] in v.pages && v.pages[v.chain[i]].Leaf?
    requires RangeUpTo(v, results, min, max, v.spans[v.chain[i]].lo)
    requires LeafOk(v.pages[v.chain[i]].entries, v.spans[v.chain[i]]) && SortedEntries(found)
    requires forall e :: e in found <==> e in v.pages[v.chain[i]].entries && min <= e.key <= max
    ensures RangeUpTo(v, results + found, min, max, v.spans[v.chain[i]].hi)
  {
    var p := v.chain[i];
    var s := v.spans[p];
    assert NodeOk(v, p);
    forall e: Entry
      ensures e in results + found <==> e in Pairs(v.pages) && min <= e.key <= max && Less(At(e.key), s.hi)
    {
      if Within(s, e.key) {
        OwnerHoldsKey(v, cap, INVALID_PAGE_ID, p, e);
      }
      if e in v.pages[p].entries {
        var j :| 0 <= j < |v.pages[p].entries| && v.pages[p].entries[j] == e;
      }
    }
    forall a, b | 0 <= a < |results| && 0 <= b < |found| ensures results[a].key < found[b].key {
      assert results[a] in results && found[b] in found;
      var j :| 0 <= j < |v.pages[p].entries| && v.pages[p].entries[j] == found[b];
    }
  }

  /** A leaf that holds a key above `max` ends the search: nothing in range lies further on. */
  lemma RangeStops(v: View, cap: nat, i: nat, min: Key, max: Key, results: seq<Entry>)
    requires Inv(v, cap) && i < |v.chain| && v.chain[i] in v.pages && v.pages[v.chain[i]].Leaf?
    requires RangeUpTo(v, results, min, max, v.spans[v.chain[i]].hi)
    requires exists j :: 0 <= j < |v.pages[v.chain[i]].entries| && max < v.pages[v.chain[i]].entries[j].key
    ensures RangeUpTo(v, results, min, max, PosInf)
  {
    assert NodeOk(v, v.chain[i]);
    var j :| 0 <= j < |v.pages[v.chain[i]].entries| && max < v.pages[v.chain[i]].entries[j].key;
    assert Within(v.spans[v.chain[i]], v.pages[v.chain[i]].entries[j].key);
  }
}
