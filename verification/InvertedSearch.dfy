/**
 * Scoring and searching: AND and OR queries against the posting lists give exactly the documents a
 * scan would find, with the same scores, best first.
 */
module InvertedSearch {
  import opened InvertedIndexes
  import opened SearchScores

  // ---------- Result lists ----------

  predicate Distinct(rs: seq<SearchResult>) {
    forall i, j :: 0 <= i < j < |rs| ==> rs[i].docId != rs[j].docId
  }

  ghost predicate HasDoc(rs: seq<SearchResult>, d: RowId) {
    exists i :: 0 <= i < |rs| && rs[i].docId == d
  }

  function ScoreIn(rs: seq<SearchResult>, d: RowId): real {
    if rs == [] then 0.0 else if rs[|rs| - 1].docId == d then rs[|rs| - 1].score else ScoreIn(rs[..|rs| - 1], d)
  }

  ghost function SumScores(sets: seq<seq<SearchResult>>, d: RowId): real {
    if sets == [] then 0.0 else SumScores(sets[..|sets| - 1], d) + ScoreIn(sets[|sets| - 1], d)
  }

  lemma {:induction false} ScoreOf(rs: seq<SearchResult>, i: nat)
    requires i < |rs| && Distinct(rs)
    ensures ScoreIn(rs, rs[i].docId) == rs[i].score
    decreases |rs|
  {
    if i < |rs| - 1 { ScoreOf(rs[..|rs| - 1], i); }
  }

  lemma {:induction false} ScoreOfAbsent(rs: seq<SearchResult>, d: RowId)
    requires !HasDoc(rs, d)
    ensures ScoreIn(rs, d) == 0.0
    decreases |rs|
  {
    if rs != [] {
      var front := rs[..|rs| - 1];
      assert !HasDoc(front, d) by {
        forall i | 0 <= i < |front| ensures front[i].docId != d { assert front[i] == rs[i]; }
      }
      ScoreOfAbsent(front, d);
    }
  }

  // ---------- Document frequency ----------

  ghost function DocIds(ps: seq<Posting>): set<RowId> {
    set i | 0 <= i < |ps| :: ps[i].docId
  }

  lemma {:induction false} DistinctCount(ps: seq<Posting>)
    requires OncePerDoc(ps)
    ensures |DocIds(ps)| == |ps|
    decreases |ps|
  {
    if ps == [] {
      assert DocIds(ps) == {};
    } else {
      var front, last := ps[..|ps| - 1], ps[|ps| - 1].docId;
      DistinctCount(front);
      assert last !in DocIds(front);
      forall d ensures d in DocIds(ps) <==> d in DocIds(front) + {last} {
        if d in DocIds(front) {
          var i :| 0 <= i < |front| && front[i].docId == d;
          assert ps[i].docId == d;
        }
        if d in DocIds(ps) && d != last {
          var i :| 0 <= i < |ps| && ps[i].docId == d;
          assert front[i].docId == d;
        }
        if d == last { assert ps[|ps| - 1].docId == d; }
      }
      assert DocIds(ps) == DocIds(front) + {last};
    }
  }

  /** `df` is the number of documents that contain the term. */
  lemma DfIsDocumentFrequency(list: PostingList, docs: Docs, t: Term)
    requires ListOk(list, docs, t)
    ensures list.df == |DocsWith(docs, t)|
  {
    DistinctCount(list.postings);
    forall d ensures d in DocIds(list.postings) <==> d in DocsWith(docs, t) {
      if d in DocsWith(docs, t) {
        assert Lists(list.postings, d);
        var i :| 0 <= i < |list.postings| && list.postings[i].docId == d;
        assert d in DocIds(list.postings);
      }
    }
    assert DocIds(list.postings) == DocsWith(docs, t);
  }

  // ---------- Merging and intersecting ----------

  function Get(m: map<RowId, real>, d: RowId): real {
    if d in m then m[d] else 0.0
  }

  /** Adds the scores of one result set to the map. */
  method AddSet(m: map<RowId, real>, rs: seq<SearchResult>) returns (r: map<RowId, real>)
    requires Distinct(rs)
    ensures forall d :: d in r <==> d in m || HasDoc(rs, d)
    ensures forall d :: d in r ==> r[d] == Get(m, d) + ScoreIn(rs, d)
  {
    r := m;
    var j := 0;
    while j < |rs|
      invariant j <= |rs|
      invariant forall d :: d in r <==> d in m || HasDoc(rs[..j], d)
      invariant forall d :: d in r ==> r[d] == Get(m, d) + ScoreIn(rs[..j], d)
    {
      var front, next := rs[..j], rs[..j + 1];
      var x := rs[j];
      assert next[..j] == front;
      ScoreOfAbsent(front, x.docId);
      ghost var before := r;
      r := r[x.docId := Get(r, x.docId) + x.score];
      forall d ensures HasDoc(next, d) <==> HasDoc(front, d) || d == x.docId {
        HasDocSnoc(rs, j, d);
      }
      j := j + 1;
    }
    assert rs[..j] == rs;
  }

  lemma HasDocSnoc(rs: seq<SearchResult>, j: nat, d: RowId)
    requires j < |rs|
    ensures HasDoc(rs[..j + 1], d) <==> HasDoc(rs[..j], d) || d == rs[j].docId
  {
    if HasDoc(rs[..j + 1], d) && d != rs[j].docId {
      var i :| 0 <= i < j + 1 && rs[..j + 1][i].docId == d;
      assert rs[..j][i].docId == d;
    }
    if HasDoc(rs[..j], d) {
      var i :| 0 <= i < j && rs[..j][i].docId == d;
      assert rs[..j + 1][i].docId == d;
    }
    if d == rs[j].docId { assert rs[..j + 1][j].docId == d; }
  }

  /** The result list says exactly what the map says. */
  ghost predicate Spells(rs: seq<SearchResult>, m: map<RowId, real>) {
    Distinct(rs) && |rs| == |m| &&
    (forall i :: 0 <= i < |rs| ==> rs[i].docId in m && rs[i].score == m[rs[i].docId]) &&
    (forall d :: d in m ==> HasDoc(rs, d))
  }

  method ToResults(m: map<RowId, real>) returns (rs: seq<SearchResult>)
    ensures Spells(rs, m)
  {
    rs := [];
    var todo := m.Keys;
    while todo != {}
      invariant todo <= m.Keys && |rs| + |todo| == |m| && Distinct(rs)
      invariant forall i :: 0 <= i < |rs| ==> rs[i].docId in m && rs[i].docId !in todo && rs[i].score == m[rs[i].docId]
      invariant forall d :: d in m && d !in todo ==> HasDoc(rs, d)
    {
      var d :| d in todo;
      ghost var front := rs;
      rs := rs + [SearchResult(d, m[d])];
      forall x | x in m && x !in todo - {d} ensures HasDoc(rs, x) {
        assert rs[..|front|] == front && rs[..|front| + 1] == rs;
        HasDocSnoc(rs, |front|, x);
      }
      todo := todo - {d};
    }
  }

  ghost predicate AllDistinct(sets: seq<seq<SearchResult>>) {
    forall i :: 0 <= i < |sets| ==> Distinct(sets[i])
  }

  ghost predicate InAny(sets: seq<seq<SearchResult>>, d: RowId) {
    exists i :: 0 <= i < |sets| && HasDoc(sets[i], d)
  }

  ghost predicate InAll(sets: seq<seq<SearchResult>>, d: RowId) {
    forall i :: 0 <= i < |sets| ==> HasDoc(sets[i], d)
  }

  ghost function Union(sets: seq<seq<SearchResult>>): set<RowId> {
    set i, j | 0 <= i < |sets| && 0 <= j < |sets[i]| :: sets[i][j].docId
  }

  ghost function Common(sets: seq<seq<SearchResult>>): set<RowId> {
    set d | d in Union(sets) && InAll(sets, d)
  }

  lemma UnionIsAny(sets: seq<seq<SearchResult>>, d: RowId)
    ensures d in Union(sets) <==> InAny(sets, d)
  {
    if d in Union(sets) {
      var i, j :| 0 <= i < |sets| && 0 <= j < |sets[i]| && sets[i][j].docId == d;
      assert HasDoc(sets[i], d);
    }
    if InAny(sets, d) {
      var i :| 0 <= i < |sets| && HasDoc(sets[i], d);
      var j :| 0 <= j < |sets[i]| && sets[i][j].docId == d;
    }
  }

  lemma CommonIsAll(sets: seq<seq<SearchResult>>, d: RowId)
    requires sets != []
    ensures d in Common(sets) <==> InAll(sets, d)
  {
    UnionIsAny(sets, d);
    if InAll(sets, d) { assert HasDoc(sets[0], d); }
  }

  /** What a combination of result sets must be: the chosen documents with their summed scores. */
  ghost predicate Combines(rs: seq<SearchResult>, sets: seq<seq<SearchResult>>, chosen: set<RowId>) {
    Spells(rs, map d | d in chosen :: SumScores(sets, d))
  }

  /** Any one set contains the document; its scores add up. */
  method MergeResults(sets: seq<seq<SearchResult>>) returns (rs: seq<SearchResult>)
    requires sets != [] && AllDistinct(sets)
    ensures Combines(rs, sets, Union(sets))
  {
    hide Spells, Union;
    forall d ensures d in Union(sets) <==> InAny(sets, d) {
      UnionIsAny(sets, d);
    }
    if |sets| == 1 {
      SingleSet(sets, Union(sets));
      return sets[0];
    }
    var m: map<RowId, real> := map[];
    var i := 0;
    while i < |sets|
      invariant i <= |sets|
      invariant forall d :: d in m <==> InAny(sets[..i], d)
      invariant forall d :: d in m ==> m[d] == SumScores(sets[..i], d)
    {
      ghost var before := m;
      m := AddSet(m, sets[i]);
      forall d
        ensures InAny(sets[..i + 1], d) <==> InAny(sets[..i], d) || HasDoc(sets[i], d)
        ensures SumScores(sets[..i + 1], d) == SumScores(sets[..i], d) + ScoreIn(sets[i], d)
        ensures d !in before ==> SumScores(sets[..i], d) == 0.0
      {
        AnySnoc(sets, i, d);
        if d !in before { AbsentEverywhere(sets[..i], d); }
      }
      i := i + 1;
    }
    assert sets[..i] == sets;
    rs := ToResults(m);
    assert m == map d | d in Union(sets) :: SumScores(sets, d);
  }

  lemma AnySnoc(sets: seq<seq<SearchResult>>, i: nat, d: RowId)
    requires i < |sets|
    ensures InAny(sets[..i + 1], d) <==> InAny(sets[..i], d) || HasDoc(sets[i], d)
    ensures InAll(sets[..i + 1], d) <==> InAll(sets[..i], d) && HasDoc(sets[i], d)
    ensures SumScores(sets[..i + 1], d) == SumScores(sets[..i], d) + ScoreIn(sets[i], d)
  {
    hide HasDoc, ScoreIn;
    var longer, front := sets[..i + 1], sets[..i];
    assert longer[..i] == front && longer[i] == sets[i];
    forall j | 0 <= j < i ensures longer[j] == front[j] {
    }
    if InAny(longer, d) && !HasDoc(sets[i], d) {
      var j :| 0 <= j < |longer| && HasDoc(longer[j], d);
      assert HasDoc(front[j], d);
    }
    if InAny(front, d) {
      var j :| 0 <= j < |front| && HasDoc(front[j], d);
      assert HasDoc(longer[j], d);
    }
    if HasDoc(sets[i], d) { assert HasDoc(longer[i], d); }
    if InAll(longer, d) {
      forall j | 0 <= j < |front| ensures HasDoc(front[j], d) { assert HasDoc(longer[j], d); }
      assert HasDoc(longer[i], d);
    }
    if InAll(front, d) && HasDoc(sets[i], d) {
      forall j | 0 <= j < |longer| ensures HasDoc(longer[j], d) {
        if j < i { assert HasDoc(front[j], d); }
      }
    }
  }

  lemma {:induction false} AbsentEverywhere(sets: seq<seq<SearchResult>>, d: RowId)
    requires !InAny(sets, d)
    ensures SumScores(sets, d) == 0.0
    decreases |sets|
  {
    if sets != [] {
      var n := |sets| - 1;
      assert sets[..n + 1] == sets;
      AnySnoc(sets, n, d);
      AbsentEverywhere(sets[..n], d);
      ScoreOfAbsent(sets[n], d);
    }
  }

  lemma SingleSet(sets: seq<seq<SearchResult>>, chosen: set<RowId>)
    requires |sets| == 1 && Distinct(sets[0])
    requires (forall d :: d in chosen <==> InAny(sets, d)) || (forall d :: d in chosen <==> InAll(sets, d))
    ensures Combines(sets[0], sets, chosen)
  {
    var rs := sets[0];
    var ids := set i | 0 <= i < |rs| :: rs[i].docId;
    forall d ensures d in ids <==> HasDoc(rs, d) {
      if HasDoc(rs, d) { var i :| 0 <= i < |rs| && rs[i].docId == d; }
    }
    forall d ensures SumScores(sets, d) == ScoreIn(rs, d) && (InAny(sets, d) <==> HasDoc(rs, d)) && (InAll(sets, d) <==> HasDoc(rs, d)) {
      OneSet(sets, d);
    }
    assert chosen == ids;
    hide HasDoc, InAny, InAll, SumScores;
    var m := map d | d in chosen :: SumScores(sets, d);
    DistinctIds(rs);
    assert m.Keys == chosen && |m| == |chosen|;
    forall i | 0 <= i < |rs| ensures rs[i].docId in m && rs[i].score == m[rs[i].docId] {
      ScoreOf(rs, i);
      assert rs[i].docId in chosen;
    }
  }

  lemma OneSet(sets: seq<seq<SearchResult>>, d: RowId)
    requires |sets| == 1
    ensures SumScores(sets, d) == ScoreIn(sets[0], d) && (InAny(sets, d) <==> HasDoc(sets[0], d)) && (InAll(sets, d) <==> HasDoc(sets[0], d))
  {
    hide HasDoc, ScoreIn;
    assert sets[..0] == [] && sets[..1] == sets;
    AnySnoc(sets, 0, d);
  }

  lemma {:induction false} DistinctIds(rs: seq<SearchResult>)
    requires Distinct(rs)
    ensures |set i | 0 <= i < |rs| :: rs[i].docId| == |rs|
    decreases |rs|
  {
    var ids := set i | 0 <= i < |rs| :: rs[i].docId;
    if rs == [] {
      assert ids == {};
    } else {
      var n := |rs| - 1;
      var front := rs[..n];
      var fewer := set i | 0 <= i < |front| :: front[i].docId;
      DistinctIds(front);
      forall d ensures d in ids <==> d in fewer + {rs[n].docId} {
        if d in ids {
          var i :| 0 <= i < |rs| && rs[i].docId == d;
          if i < n { assert front[i].docId == d; }
        }
        if d in fewer {
          var i :| 0 <= i < |front| && front[i].docId == d;
          assert rs[i].docId == d;
        }
        if d == rs[n].docId { assert d in ids; }
      }
      assert ids == fewer + {rs[n].docId} && rs[n].docId !in fewer;
    }
  }

  method IdsOf(rs: seq<SearchResult>) returns (ids: set<RowId>)
    ensures forall d :: d in ids <==> HasDoc(rs, d)
  {
    ids := {};
    var i := 0;
    while i < |rs|
      invariant i <= |rs| && forall d :: d in ids <==> HasDoc(rs[..i], d)
    {
      forall d ensures HasDoc(rs[..i + 1], d) <==> HasDoc(rs[..i], d) || d == rs[i].docId {
        HasDocSnoc(rs, i, d);
      }
      ids := ids + {rs[i].docId};
      i := i + 1;
    }
    assert rs[..i] == rs;
  }

  /** The documents in all sets: start with a smallest set and intersect, stopping when nothing is left. */
  method CommonIds(sets: seq<seq<SearchResult>>) returns (ids: set<RowId>)
    requires sets != []
    ensures forall d :: d in ids <==> InAll(sets, d)
  {
    hide HasDoc;
    var minIndex := 0;
    var i := 1;
    while i < |sets|
      invariant 0 <= minIndex < |sets|
    {
      if |sets[i]| < |sets[minIndex]| {
        minIndex := i;
      }
      i := i + 1;
    }
    ids := IdsOf(sets[minIndex]);
    i := 0;
    while i < |sets|
      invariant i <= |sets|
      invariant forall d :: d in ids <==> HasDoc(sets[minIndex], d) && InAll(sets[..i], d)
    {
      forall d ensures InAll(sets[..i + 1], d) <==> InAll(sets[..i], d) && HasDoc(sets[i], d) {
        AnySnoc(sets, i, d);
      }
      if i != minIndex {
        var current := IdsOf(sets[i]);
        ids := ids * current;
        if ids == {} {
          forall d ensures !InAll(sets, d) {
            AnySnoc(sets, i, d);
            assert d !in ids;
            assert !(HasDoc(sets[minIndex], d) && InAll(sets[..i + 1], d));
            PrefixInAll(sets, i + 1, minIndex, d);
          }
          return;
        }
      }
      i := i + 1;
    }
    assert sets[..i] == sets;
  }

  lemma PrefixInAll(sets: seq<seq<SearchResult>>, n: nat, k: nat, d: RowId)
    requires n <= |sets| && k < |sets| && !(HasDoc(sets[k], d) && InAll(sets[..n], d))
    ensures !InAll(sets, d)
  {
    hide HasDoc;
    if HasDoc(sets[k], d) {
      var j :| 0 <= j < n && !HasDoc(sets[..n][j], d);
      assert !HasDoc(sets[j], d);
    }
  }

  /** The score of one document in one set, found by looking through the set. */
  method FindScore(rs: seq<SearchResult>, d: RowId) returns (score: real)
    requires Distinct(rs)
    ensures score == ScoreIn(rs, d)
  {
    var i := 0;
    while i < |rs|
      invariant i <= |rs| && !HasDoc(rs[..i], d)
    {
      HasDocSnoc(rs, i, d);
      if rs[i].docId == d {
        ScoreOf(rs, i);
        return rs[i].score;
      }
      i := i + 1;
    }
    assert rs[..i] == rs;
    ScoreOfAbsent(rs, d);
    score := 0.0;
  }

  method TotalScore(sets: seq<seq<SearchResult>>, d: RowId) returns (total: real)
    requires AllDistinct(sets)
    ensures total == SumScores(sets, d)
  {
    hide ScoreIn;
    total := 0.0;
    var i := 0;
    while i < |sets|
      invariant i <= |sets| && total == SumScores(sets[..i], d)
    {
      AnySnoc(sets, i, d);
      var score := FindScore(sets[i], d);
      total := total + score;
      i := i + 1;
    }
    assert sets[..i] == sets;
  }

  method IntersectResults(sets: seq<seq<SearchResult>>) returns (rs: seq<SearchResult>)
    requires sets != [] && AllDistinct(sets)
    ensures Combines(rs, sets, Common(sets))
  {
    hide Spells, HasDoc, InAll, Union, Common;
    forall d ensures d in Common(sets) <==> InAll(sets, d) {
      CommonIsAll(sets, d);
    }
    if |sets| == 1 {
      SingleSet(sets, Common(sets));
      return sets[0];
    }
    var ids := CommonIds(sets);
    assert ids == Common(sets);
    var m: map<RowId, real> := map[];
    var todo := ids;
    while todo != {}
      invariant todo <= ids && m.Keys == ids - todo
      invariant forall d :: d in m ==> m[d] == SumScores(sets, d)
    {
      var d :| d in todo;
      var total := TotalScore(sets, d);
      m := m[d := total];
      todo := todo - {d};
    }
    rs := ToResults(m);
    assert m == map d | d in Common(sets) :: SumScores(sets, d);
  }

  // ---------- Ranking ----------

  predicate Descending(rs: seq<SearchResult>) {
    forall i, j :: 0 <= i < j < |rs| ==> rs[i].score >= rs[j].score
  }

  /** Best first.  Nothing is said of the order of equal scores. */
  method SortResults(rs: seq<SearchResult>, ghost m: map<RowId, real>) returns (out: seq<SearchResult>)
    requires Spells(rs, m)
    ensures Spells(out, m) && Descending(out)
  {
    out := [];
    var i := 0;
    while i < |rs|
      invariant i <= |rs| && |out| == i && Descending(out) && Distinct(out)
      invariant forall k :: 0 <= k < i ==> out[k].docId in m && out[k].score == m[out[k].docId]
      invariant forall d :: HasDoc(out, d) <==> HasDoc(rs[..i], d)
    {
      var at := PlaceFor(out, rs[i].score);
      NotYet(rs, i, out);
      Placed(out, at, rs[i]);
      forall d ensures HasDoc(rs[..i + 1], d) <==> HasDoc(rs[..i], d) || d == rs[i].docId {
        HasDocSnoc(rs, i, d);
      }
      out := out[..at] + [rs[i]] + out[at..];
      i := i + 1;
    }
    assert rs[..i] == rs;
  }

  method PlaceFor(out: seq<SearchResult>, score: real) returns (at: nat)
    requires Descending(out)
    ensures at <= |out| && (forall k :: 0 <= k < at ==> out[k].score >= score) && (forall k :: at <= k < |out| ==> score >= out[k].score)
  {
    at := 0;
    while at < |out| && out[at].score >= score
      invariant at <= |out| && forall k :: 0 <= k < at ==> out[k].score >= score
    {
      at := at + 1;
    }
  }

  lemma NotYet(rs: seq<SearchResult>, i: nat, out: seq<SearchResult>)
    requires i < |rs| && Distinct(rs) && forall d :: HasDoc(out, d) <==> HasDoc(rs[..i], d)
    ensures !HasDoc(out, rs[i].docId)
  {
  }

  lemma Placed(out: seq<SearchResult>, at: nat, x: SearchResult)
    requires at <= |out| && Descending(out) && Distinct(out) && !HasDoc(out, x.docId)
    requires (forall k :: 0 <= k < at ==> out[k].score >= x.score) && (forall k :: at <= k < |out| ==> x.score >= out[k].score)
    ensures var more := out[..at] + [x] + out[at..];
            Descending(more) && Distinct(more) && (forall d :: HasDoc(more, d) <==> HasDoc(out, d) || d == x.docId) &&
            forall k :: 0 <= k < |more| ==> more[k] == x || more[k] in out
  {
    var more := out[..at] + [x] + out[at..];
    forall i, j | 0 <= i < j < |more| ensures more[i].score >= more[j].score && more[i].docId != more[j].docId {
      PlacedPair(out, at, x, i, j);
    }
    forall k | 0 <= k < |more| ensures more[k] == x || more[k] in out {
      PlacedItem(out, at, x, k);
    }
    forall d ensures HasDoc(more, d) <==> HasDoc(out, d) || d == x.docId {
      PlacedDoc(out, at, x, d);
    }
  }

  lemma PlacedItem(out: seq<SearchResult>, at: nat, x: SearchResult, k: nat)
    requires at <= |out| && k < |out| + 1
    ensures (out[..at] + [x] + out[at..])[k] == if k < at then out[k] else if k == at then x else out[k - 1]
  {
  }

  lemma PlacedPair(out: seq<SearchResult>, at: nat, x: SearchResult, i: nat, j: nat)
    requires at <= |out| && Descending(out) && Distinct(out) && !HasDoc(out, x.docId) && i < j < |out| + 1
    requires (forall k :: 0 <= k < at ==> out[k].score >= x.score) && (forall k :: at <= k < |out| ==> x.score >= out[k].score)
    ensures var more := out[..at] + [x] + out[at..]; more[i].score >= more[j].score && more[i].docId != more[j].docId
  {
    PlacedItem(out, at, x, i);
    PlacedItem(out, at, x, j);
  }

  lemma PlacedDoc(out: seq<SearchResult>, at: nat, x: SearchResult, d: RowId)
    requires at <= |out|
    ensures HasDoc(out[..at] + [x] + out[at..], d) <==> HasDoc(out, d) || d == x.docId
  {
    var more := out[..at] + [x] + out[at..];
    if HasDoc(out, d) {
      var k :| 0 <= k < |out| && out[k].docId == d;
      assert more[if k < at then k else k + 1].docId == d;
    }
    if d == x.docId { assert more[at].docId == d; }
    if HasDoc(more, d) && d != x.docId {
      var k :| 0 <= k < |more| && more[k].docId == d;
      assert out[if k < at then k else k - 1].docId == d;
    }
  }

  /** The answer to a query: as many of the found documents as the limit allows, best first, none
      twice, each with its score, and none left out that beats one that is in. */
  ghost predicate Answers(rs: seq<SearchResult>, found: map<RowId, real>, limit: int) {
    Distinct(rs) && Descending(rs) &&
    |rs| == (if 0 < limit < |found| then limit else |found|) &&
    (forall i :: 0 <= i < |rs| ==> rs[i].docId in found && rs[i].score == found[rs[i].docId]) &&
    (forall d :: d in found ==> HasDoc(rs, d) || forall i :: 0 <= i < |rs| ==> rs[i].score >= found[d]) &&
    (limit <= 0 || |found| <= limit ==> forall d :: d in found ==> HasDoc(rs, d))
  }

  lemma HigherComesFirst(rs: seq<SearchResult>, found: map<RowId, real>, limit: int, d: RowId, e: RowId)
    requires Answers(rs, found, limit) && d in found && (e in found ==> found[d] > found[e])
    ensures ComesFirst(rs, d, e)
  {
    forall j | 0 <= j < |rs| && rs[j].docId == e ensures exists i :: 0 <= i < j && rs[i].docId == d {
      assert rs[j].score == found[e];
      var i :| 0 <= i < |rs| && rs[i].docId == d;
      assert rs[i].score == found[d];
    }
  }

  lemma OrRanks(rs: seq<SearchResult>, log: Log, docs: Docs, terms: seq<Term>, limit: int)
    requires Rising(log) && Answers(rs, OrScan(log, docs, terms), limit)
    ensures RanksAny(rs, docs, terms)
  {
    hide QueryScore, Count, DocsWith, Answers, ComesFirst;
    forall d, e | d in docs && e in docs && (HasRarer(docs, terms, d, e) || Dominates(docs, terms, d, e)) ensures ComesFirst(rs, d, e) {
      if HasRarer(docs, terms, d, e) { RarerQueryScore(log, docs, terms, d, e); } else { DominantScore(log, docs, terms, d, e); }
      HigherComesFirst(rs, OrScan(log, docs, terms), limit, d, e);
    }
  }

  lemma AndRanks(rs: seq<SearchResult>, log: Log, docs: Docs, terms: seq<Term>, limit: int)
    requires Rising(log) && Answers(rs, AndScan(log, docs, terms), limit)
    ensures RanksAll(rs, docs, terms)
  {
    hide QueryScore, Count, DocsWith, Answers, ComesFirst;
    forall d, e | d in docs && e in docs && Dominates(docs, terms, d, e) ensures ComesFirst(rs, d, e) {
      DominantScore(log, docs, terms, d, e);
      if HasAll(docs, terms, e) {
        forall i | 0 <= i < |terms| ensures terms[i] in docs[d] {
          CountOccurs(docs[d], terms[i]);
          CountOccurs(docs[e], terms[i]);
        }
        HigherComesFirst(rs, AndScan(log, docs, terms), limit, d, e);
      } else {
        NotListed(rs, AndScan(log, docs, terms), limit, d, e);
      }
    }
  }

  lemma NotListed(rs: seq<SearchResult>, found: map<RowId, real>, limit: int, d: RowId, e: RowId)
    requires Answers(rs, found, limit) && e !in found
    ensures ComesFirst(rs, d, e)
  {
  }

  lemma NothingRanked(docs: Docs, terms: seq<Term>)
    ensures RanksAny([], docs, terms) && RanksAll([], docs, terms)
  {
  }

  method Limited(sorted: seq<SearchResult>, limit: int, ghost found: map<RowId, real>) returns (rs: seq<SearchResult>)
    requires Spells(sorted, found) && Descending(sorted)
    ensures Answers(rs, found, limit)
  {
    rs := sorted;
    if limit > 0 && |rs| > limit {
      rs := rs[..limit];
      forall d | d in found ensures HasDoc(rs, d) || forall i :: 0 <= i < |rs| ==> rs[i].score >= found[d] {
        var k :| 0 <= k < |sorted| && sorted[k].docId == d;
        if k < limit { assert rs[k].docId == d; }
      }
    }
  }

  // ---------- The index object ----------

  method CountTerms(tokens: seq<Term>) returns (m: map<Term, nat>)
    ensures m == Frequencies(tokens)
  {
    m := map[];
    var i := 0;
    while i < |tokens|
      invariant i <= |tokens| && m == Frequencies(tokens[..i])
    {
      FrequenciesSnoc(tokens, i);
      var t := tokens[i];
      m := m[t := (if t in m then m[t] else 0) + 1];
      i := i + 1;
    }
    assert tokens[..i] == tokens;
  }

  lemma FrequenciesSnoc(tokens: seq<Term>, i: nat)
    requires i < |tokens|
    ensures var f, t := Frequencies(tokens[..i]), tokens[i];
            Frequencies(tokens[..i + 1]) == f[t := (if t in f then f[t] else 0) + 1]
  {
    assert tokens[..i + 1] == tokens[..i] + [tokens[i]];
    var f, g, t := Frequencies(tokens[..i]), Frequencies(tokens[..i + 1]), tokens[i];
    assert forall u :: Count(tokens[..i + 1], u) == Count(tokens[..i], u) + if u == t then 1 else 0;
    assert g.Keys == f.Keys + {t};
    forall u | u in g ensures g[u] == f[t := (if t in f then f[t] else 0) + 1][u] {
      if u == t && t !in f { assert Count(tokens[..i], t) == 0; }
    }
  }

  lemma InsertedOnce(index: Index, d: RowId, tokens: seq<Term>, done: set<Term>, t: Term)
    requires t !in done
    ensures var mid := Inserted(index, d, tokens, done);
            Inserted(index, d, tokens, done + {t}) == mid[t := With(ListFor(mid, t), Posting(d, Count(tokens, t)))]
  {
  }

  lemma InsertedNothing(index: Index, d: RowId, tokens: seq<Term>)
    ensures Inserted(index, d, tokens, {}) == index
  {
  }

  /** The index with document `d` taken off the lists of the terms in `done`. */
  ghost function PartlyRemoved(index: Index, d: RowId, done: set<Term>): Index
    requires Counted(index)
  {
    map t | t in index && (t in done ==> Without(index[t], d).postings != []) :: if t in done then Without(index[t], d) else index[t]
  }

  lemma PartlyRemovedOnce(index: Index, d: RowId, done: set<Term>, t: Term)
    requires Counted(index) && t in index && t !in done
    ensures var mid, list := PartlyRemoved(index, d, done), Without(index[t], d);
            t in mid && mid[t] == index[t] &&
            PartlyRemoved(index, d, done + {t}) == if list.postings == [] then mid - {t} else mid[t := list]
  {
  }

  lemma PartlyRemovedEnds(index: Index, d: RowId)
    requires Counted(index)
    ensures PartlyRemoved(index, d, {}) == index && PartlyRemoved(index, d, index.Keys) == Removed(index, d)
  {
  }

  class InvertedIndex {
    var index: Index
    var docLengths: map<RowId, nat>
    var totalDocuments: nat
    const tokenize: string -> seq<Term>
    const log: Log
    ghost var docs: Docs

    /** The posting lists agree with the tokens of the documents, and the lengths and the total with
        the documents. */
    ghost predicate Valid()
      reads this
    {
      Agrees(index, docs) && docLengths.Keys == docs.Keys && totalDocuments == |docs| && INVALID_ROW_ID !in docs &&
      forall d :: d in docs ==> docLengths[d] == |docs[d]| > 0
    }

    constructor (tokenize: string -> seq<Term>, log: Log)
      ensures Valid() && docs == map[] && this.tokenize == tokenize && this.log == log
    {
      index, docLengths, totalDocuments, docs := map[], map[], 0, map[];
      this.tokenize, this.log := tokenize, log;
    }

    /** A new document with at least one token joins the index; one without tokens is accepted and
        left out. */
    method Insert(d: RowId, text: string) returns (ok: bool)
      requires Valid()
      modifies this
      ensures Valid() && (ok <==> d != INVALID_ROW_ID && text != "" && d !in old(docs))
      ensures docs == if ok && tokenize(text) != [] then old(docs)[d := tokenize(text)] else old(docs)
      ensures ok && tokenize(text) != [] ==> index == Inserted(old(index), d, tokenize(text), TermSet(tokenize(text)))
      ensures !(ok && tokenize(text) != []) ==> index == old(index)
    {
      hide Agrees, Inserted, TermSet, Frequencies;
      if d == INVALID_ROW_ID || text == "" || d in docLengths {
        return false;
      }
      var tokens := tokenize(text);
      if tokens == [] {
        return true;
      }
      InsertAgrees(index, docs, d, tokens);
      var frequencies := CountTerms(tokens);
      docLengths := docLengths[d := |tokens|];
      AddPostings(d, tokens, frequencies);
      totalDocuments := totalDocuments + 1;
      OneMoreDoc(docs, d, tokens);
      docs := docs[d := tokens];
      return true;
    }

    method AddPostings(d: RowId, tokens: seq<Term>, frequencies: map<Term, nat>)
      requires frequencies == Frequencies(tokens)
      modifies this`index
      ensures index == Inserted(old(index), d, tokens, TermSet(tokens))
    {
      hide Inserted;
      var todo := frequencies.Keys;
      ghost var done: set<Term> := {};
      InsertedNothing(index, d, tokens);
      while todo != {}
        invariant todo <= frequencies.Keys && done == frequencies.Keys - todo
        invariant index == Inserted(old(index), d, tokens, done)
      {
        var t :| t in todo;
        InsertedOnce(old(index), d, tokens, done, t);
        if t !in index {
          index := index[t := PostingList(0, [])];
        }
        var list := index[t];
        index := index[t := PostingList(list.df + 1, list.postings + [Posting(d, frequencies[t])])];
        done := done + {t};
        todo := todo - {t};
      }
      assert done == TermSet(tokens);
    }

    method Remove(d: RowId) returns (ok: bool)
      requires Valid()
      modifies this
      ensures Valid() && (ok <==> d in old(docs)) && docs == old(docs) - {d}
      ensures ok ==> Counted(old(index)) && index == Removed(old(index), d)
      ensures !ok ==> index == old(index)
    {
      hide Agrees, Removed, Counted, PartlyRemoved, Without;
      if d == INVALID_ROW_ID || d !in docLengths {
        assert docs - {d} == docs;
        return false;
      }
      RemoveAgrees(index, docs, d);
      PartlyRemovedEnds(index, d);
      var todo := index.Keys;
      ghost var done: set<Term> := {};
      while todo != {}
        invariant todo <= old(index).Keys && done == old(index).Keys - todo
        invariant index == PartlyRemoved(old(index), d, done)
        invariant docLengths == old(docLengths) && totalDocuments == old(totalDocuments) && docs == old(docs)
      {
        var t :| t in todo;
        PartlyRemovedOnce(old(index), d, done, t);
        ListCounted(old(index), t);
        var list := RemovePosting(index[t], d);
        if list.postings == [] {
          index := index - {t};
        } else {
          index := index[t := list];
        }
        done := done + {t};
        todo := todo - {t};
      }
      assert done == old(index).Keys;
      docLengths := docLengths - {d};
      totalDocuments := totalDocuments - 1;
      OneDocLess(docs, d);
      docs := docs - {d};
      return true;
    }

    method RemovePosting(list: PostingList, d: RowId) returns (r: PostingList)
      requires list.df == |list.postings|
      ensures r == Without(list, d)
    {
      var i := 0;
      while i < |list.postings|
        invariant i <= |list.postings| && forall j :: 0 <= j < i ==> list.postings[j].docId != d
      {
        if list.postings[i].docId == d {
          FindDocIs(list.postings, d, i);
          return PostingList(list.df - 1, list.postings[..i] + list.postings[i + 1..]);
        }
        i := i + 1;
      }
      return list;
    }

    /** Replaces a document, or adds it. */
    method Update(d: RowId, text: string) returns (ok: bool)
      requires Valid()
      modifies this
      ensures Valid() && (ok <==> d != INVALID_ROW_ID && text != "")
      ensures docs == if ok && tokenize(text) != [] then (old(docs) - {d})[d := tokenize(text)] else old(docs) - {d}
    {
      var removed := Remove(d);
      ok := Insert(d, text);
    }

    /** The frequencies of a document's terms, collected from the lists, are those in its tokens; so they
        add up to its stored length. */
    method GetDocumentTerms(d: RowId) returns (m: map<Term, nat>)
      requires Valid()
      ensures m == if d in docs then Frequencies(docs[d]) else map[]
      ensures d in docs ==> Sum(m) == docLengths[d]
    {
      m := map[];
      var todo := index.Keys;
      while todo != {}
        invariant todo <= index.Keys
        invariant forall t :: t in m <==> t in index && t !in todo && d in docs && t in docs[d]
        invariant forall t :: t in m ==> m[t] == Count(docs[d], t)
      {
        var t :| t in todo;
        assert ListOk(index[t], docs, t);
        var i := 0;
        ghost var before := m;
        while i < |index[t].postings|
          invariant i <= |index[t].postings| && m == before
          invariant forall j :: 0 <= j < i ==> index[t].postings[j].docId != d
        {
          if index[t].postings[i].docId == d {
            m := m[t := index[t].postings[i].tf];
            break;
          }
          i := i + 1;
        }
        if d in docs && t in docs[d] {
          assert Lists(index[t].postings, d);
        }
        todo := todo - {t};
      }
      if d in docs {
        forall t | t in docs[d] ensures t in m {
          assert Occurs(docs, t);
        }
        assert m == Frequencies(docs[d]);
        FrequenciesSum(docs[d]);
      }
    }

    /** The score from the posting lists is the score from a scan. */
    method CalculateTfIdf(t: Term, d: RowId) returns (score: real)
      requires Valid()
      ensures score == ScanScore(log, docs, t, d)
    {
      if t !in index || d !in docLengths {
        assert d in docs && t in docs[d] ==> Occurs(docs, t);
        return 0.0;
      }
      assert ListOk(index[t], docs, t);
      DfIsDocumentFrequency(index[t], docs, t);
      hide Agrees, DocsWith, TermScore, RarityScore, Count;
      var tf := 0;
      var i := 0;
      while i < |index[t].postings|
        invariant i <= |index[t].postings| && tf == 0
        invariant forall j :: 0 <= j < i ==> index[t].postings[j].docId != d
      {
        if index[t].postings[i].docId == d {
          tf := index[t].postings[i].tf;
          CountPositive(docs[d], t);
          break;
        }
        i := i + 1;
      }
      if t in docs[d] {
        assert Lists(index[t].postings, d);
      }
      if tf == 0 {
        return 0.0;
      }
      score := TermScore(log, tf, docLengths[d]) * RarityScore(log, totalDocuments, index[t].df);
    }

    /** One entry for every document that contains the term. */
    method TermResults(t: Term) returns (rs: seq<SearchResult>)
      requires Valid() && t in index
      ensures ResultsOf(rs, log, docs, t)
    {
      assert ListOk(index[t], docs, t);
      hide Agrees, ScanScore;
      ghost var ps := index[t].postings;
      rs := [];
      var i := 0;
      while i < |index[t].postings|
        invariant i <= |ps| && |rs| == i
        invariant forall k :: 0 <= k < i ==> rs[k].docId == ps[k].docId && rs[k].score == ScanScore(log, docs, t, ps[k].docId)
      {
        var score := CalculateTfIdf(t, index[t].postings[i].docId);
        rs := rs + [SearchResult(index[t].postings[i].docId, score)];
        i := i + 1;
      }
      ResultsFromPostings(rs, log, docs, t, index[t]);
    }

    /** Without a limit, exactly the documents that contain all the terms, best first; with one, the
        best of them. */
    method SearchAnd(terms: seq<Term>, limit: int) returns (rs: seq<SearchResult>)
      requires Valid()
      ensures Answers(rs, if terms == [] then map[] else AndScan(log, docs, terms), limit)
      ensures Rising(log) ==> RanksAll(rs, docs, terms)
    {
      hide Answers, Combines, Spells, ResultsOf, AndScan, Rising, RanksAll, RanksAny;
      NothingRanked(docs, terms);
      if terms == [] {
        NoAnswer(map[], limit);
        return [];
      }
      var sets: seq<seq<SearchResult>> := [];
      var i := 0;
      while i < |terms|
        invariant i <= |terms| && |sets| == i
        invariant forall k :: 0 <= k < i ==> ResultsOf(sets[k], log, docs, terms[k])
      {
        if terms[i] !in index {
          NothingForAll(log, docs, index, terms, i);
          NoAnswer(AndScan(log, docs, terms), limit);
          return [];
        }
        var one := TermResults(terms[i]);
        sets := sets + [one];
        i := i + 1;
      }
      AllSetsDistinct(sets, log, docs, terms);
      var found := IntersectResults(sets);
      ghost var m := AndScan(log, docs, terms);
      AndIsIntersection(found, sets, log, docs, terms);
      var sorted := SortResults(found, m);
      rs := Limited(sorted, limit, m);
      if Rising(log) { AndRanks(rs, log, docs, terms, limit); }
    }

    /** Without a limit, exactly the documents that contain any of the terms, best first; with one, the
        best of them. */
    method SearchOr(terms: seq<Term>, limit: int) returns (rs: seq<SearchResult>)
      requires Valid()
      ensures Answers(rs, OrScan(log, docs, terms), limit)
      ensures Rising(log) ==> RanksAny(rs, docs, terms)
    {
      hide Answers, Combines, Spells, ResultsOf, OrScan, SameQuery, Rising, RanksAll, RanksAny;
      NothingRanked(docs, terms);
      var sets: seq<seq<SearchResult>> := [];
      ghost var present: seq<Term> := [];
      var i := 0;
      assert terms[..0] == present;
      SameAsItself(log, docs, present);
      while i < |terms|
        invariant i <= |terms| && |sets| == |present|
        invariant forall k :: 0 <= k < |sets| ==> ResultsOf(sets[k], log, docs, present[k])
        invariant SameQuery(log, docs, present, terms[..i])
      {
        if terms[i] !in index {
          SkipTerm(log, docs, index, present, terms, i);
        } else {
          AddTerm(log, docs, present, terms, i);
          var one := TermResults(terms[i]);
          sets := sets + [one];
          present := present + [terms[i]];
        }
        i := i + 1;
      }
      assert terms[..i] == terms;
      SameOrScan(log, docs, present, terms);
      if sets == [] {
        NothingForAny(log, docs, present);
        NoAnswer(OrScan(log, docs, terms), limit);
        return [];
      }
      AllSetsDistinct(sets, log, docs, present);
      var found := MergeResults(sets);
      ghost var m := OrScan(log, docs, terms);
      OrIsUnion(found, sets, log, docs, present);
      var sorted := SortResults(found, m);
      rs := Limited(sorted, limit, m);
      if Rising(log) { OrRanks(rs, log, docs, terms, limit); }
    }
  }

  lemma OneMoreDoc(docs: Docs, d: RowId, tokens: seq<Term>)
    requires d !in docs
    ensures |docs[d := tokens]| == |docs| + 1
  {
    assert docs[d := tokens].Keys == docs.Keys + {d};
    assert |docs[d := tokens]| == |docs[d := tokens].Keys|;
  }

  lemma OneDocLess(docs: Docs, d: RowId)
    requires d in docs
    ensures |docs - {d}| == |docs| - 1 && (docs - {d}).Keys == docs.Keys - {d}
  {
    assert (docs - {d}).Keys == docs.Keys - {d};
  }

  lemma ListCounted(index: Index, t: Term)
    requires Counted(index) && t in index
    ensures index[t].df == |index[t].postings|
  {
  }

  lemma CountPositive(tokens: seq<Term>, t: Term)
    ensures t in tokens <==> Count(tokens, t) > 0
  {
    assert t in multiset(tokens) <==> t in tokens;
  }

  /** The result set of one term. */
  ghost predicate ResultsOf(rs: seq<SearchResult>, log: Log, docs: Docs, t: Term) {
    Distinct(rs) && forall d :: (HasDoc(rs, d) <==> d in docs && t in docs[d]) && ScoreIn(rs, d) == ScanScore(log, docs, t, d)
  }

  lemma ResultsFromPostings(rs: seq<SearchResult>, log: Log, docs: Docs, t: Term, list: PostingList)
    requires ListOk(list, docs, t) && |rs| == |list.postings|
    requires forall k :: 0 <= k < |rs| ==> rs[k].docId == list.postings[k].docId && rs[k].score == ScanScore(log, docs, t, list.postings[k].docId)
    ensures ResultsOf(rs, log, docs, t)
  {
    forall d ensures (HasDoc(rs, d) <==> d in docs && t in docs[d]) && ScoreIn(rs, d) == ScanScore(log, docs, t, d) {
      if d in docs && t in docs[d] {
        assert Lists(list.postings, d);
        var k :| 0 <= k < |list.postings| && list.postings[k].docId == d;
        assert rs[k].docId == d;
      }
      if HasDoc(rs, d) {
        var k :| 0 <= k < |rs| && rs[k].docId == d;
        ScoreOf(rs, k);
      } else {
        ScoreOfAbsent(rs, d);
      }
    }
  }

  lemma AllSetsDistinct(sets: seq<seq<SearchResult>>, log: Log, docs: Docs, terms: seq<Term>)
    requires |sets| == |terms| && forall k :: 0 <= k < |sets| ==> ResultsOf(sets[k], log, docs, terms[k])
    ensures AllDistinct(sets)
  {
  }

  lemma {:induction false} SumIsQueryScore(sets: seq<seq<SearchResult>>, log: Log, docs: Docs, terms: seq<Term>, d: RowId)
    requires |sets| == |terms| && forall k :: 0 <= k < |sets| ==> ResultsOf(sets[k], log, docs, terms[k])
    ensures SumScores(sets, d) == QueryScore(log, docs, terms, d)
    decreases |sets|
  {
    hide ScanScore, ScoreIn;
    if sets != [] {
      var n := |sets| - 1;
      SumIsQueryScore(sets[..n], log, docs, terms[..n], d);
      assert ResultsOf(sets[n], log, docs, terms[n]);
    }
  }

  lemma InSetsIffHasTerms(sets: seq<seq<SearchResult>>, log: Log, docs: Docs, terms: seq<Term>, d: RowId)
    requires |sets| == |terms| > 0 && forall k :: 0 <= k < |sets| ==> ResultsOf(sets[k], log, docs, terms[k])
    ensures InAll(sets, d) <==> HasAll(docs, terms, d)
    ensures InAny(sets, d) <==> HasAny(docs, terms, d)
  {
    hide HasDoc, ScoreIn, ScanScore;
    forall k | 0 <= k < |sets| ensures HasDoc(sets[k], d) <==> d in docs && terms[k] in docs[d] {
      assert ResultsOf(sets[k], log, docs, terms[k]);
    }
    if InAll(sets, d) { assert HasDoc(sets[0], d); }
    if InAny(sets, d) {
      var k :| 0 <= k < |sets| && HasDoc(sets[k], d);
      assert terms[k] in docs[d];
    }
    if HasAny(docs, terms, d) {
      var k :| 0 <= k < |terms| && terms[k] in docs[d];
      assert HasDoc(sets[k], d);
    }
  }

  lemma AndIsIntersection(rs: seq<SearchResult>, sets: seq<seq<SearchResult>>, log: Log, docs: Docs, terms: seq<Term>)
    requires |sets| == |terms| > 0 && forall k :: 0 <= k < |sets| ==> ResultsOf(sets[k], log, docs, terms[k])
    requires Combines(rs, sets, Common(sets))
    ensures Spells(rs, AndScan(log, docs, terms))
  {
    hide InAll, HasAll, Spells, SumScores, QueryScore, ResultsOf, Common;
    var m, a := map d | d in Common(sets) :: SumScores(sets, d), AndScan(log, docs, terms);
    forall d ensures (d in m <==> d in a) && (d in m ==> m[d] == a[d]) {
      CommonIsAll(sets, d);
      InSetsIffHasTerms(sets, log, docs, terms, d);
      SumIsQueryScore(sets, log, docs, terms, d);
      HasAllIn(docs, terms, d);
    }
    assert m == a;
  }

  lemma HasAllIn(docs: Docs, terms: seq<Term>, d: RowId)
    ensures HasAll(docs, terms, d) ==> d in docs
    ensures HasAny(docs, terms, d) ==> d in docs
  {
  }

  lemma OrIsUnion(rs: seq<SearchResult>, sets: seq<seq<SearchResult>>, log: Log, docs: Docs, terms: seq<Term>)
    requires |sets| == |terms| > 0 && forall k :: 0 <= k < |sets| ==> ResultsOf(sets[k], log, docs, terms[k])
    requires Combines(rs, sets, Union(sets))
    ensures Spells(rs, OrScan(log, docs, terms))
  {
    hide InAny, HasAny, Spells, SumScores, QueryScore, ResultsOf, Union;
    var m, a := map d | d in Union(sets) :: SumScores(sets, d), OrScan(log, docs, terms);
    forall d ensures (d in m <==> d in a) && (d in m ==> m[d] == a[d]) {
      UnionIsAny(sets, d);
      InSetsIffHasTerms(sets, log, docs, terms, d);
      SumIsQueryScore(sets, log, docs, terms, d);
      HasAllIn(docs, terms, d);
    }
    assert m == a;
  }

  lemma OneMoreTerm(log: Log, docs: Docs, terms: seq<Term>, i: nat, d: RowId)
    requires i < |terms|
    ensures HasAny(docs, terms[..i + 1], d) <==> HasAny(docs, terms[..i], d) || (d in docs && terms[i] in docs[d])
    ensures QueryScore(log, docs, terms[..i + 1], d) == QueryScore(log, docs, terms[..i], d) + ScanScore(log, docs, terms[i], d)
  {
    hide ScanScore;
    var longer, front := terms[..i + 1], terms[..i];
    assert longer[..i] == front && longer[i] == terms[i];
    if HasAny(docs, front, d) {
      var k :| 0 <= k < |front| && front[k] in docs[d];
      assert longer[k] in docs[d];
    }
    if HasAny(docs, longer, d) && terms[i] !in docs[d] {
      var k :| 0 <= k < |longer| && longer[k] in docs[d];
      assert front[k] in docs[d];
    }
    if d in docs && terms[i] in docs[d] { assert longer[i] in docs[d]; }
  }

  /** The two queries find the same documents with the same scores. */
  ghost predicate SameQuery(log: Log, docs: Docs, a: seq<Term>, b: seq<Term>) {
    forall d :: (HasAny(docs, a, d) <==> HasAny(docs, b, d)) && QueryScore(log, docs, a, d) == QueryScore(log, docs, b, d)
  }

  lemma SameAsItself(log: Log, docs: Docs, a: seq<Term>)
    ensures SameQuery(log, docs, a, a)
  {
  }

  lemma SkipTerm(log: Log, docs: Docs, index: Index, a: seq<Term>, terms: seq<Term>, i: nat)
    requires Agrees(index, docs) && i < |terms| && terms[i] !in index && SameQuery(log, docs, a, terms[..i])
    ensures SameQuery(log, docs, a, terms[..i + 1])
  {
    hide HasAny, QueryScore, ListOk;
    forall d ensures (HasAny(docs, a, d) <==> HasAny(docs, terms[..i + 1], d)) && QueryScore(log, docs, a, d) == QueryScore(log, docs, terms[..i + 1], d) {
      OneMoreTerm(log, docs, terms, i, d);
      assert d in docs && terms[i] in docs[d] ==> Occurs(docs, terms[i]);
    }
  }

  lemma AddTerm(log: Log, docs: Docs, a: seq<Term>, terms: seq<Term>, i: nat)
    requires i < |terms| && SameQuery(log, docs, a, terms[..i])
    ensures SameQuery(log, docs, a + [terms[i]], terms[..i + 1])
  {
    hide HasAny, QueryScore, ScanScore;
    var more := a + [terms[i]];
    assert more[..|a|] == a && more[..|a| + 1] == more;
    forall d ensures (HasAny(docs, more, d) <==> HasAny(docs, terms[..i + 1], d)) && QueryScore(log, docs, more, d) == QueryScore(log, docs, terms[..i + 1], d) {
      OneMoreTerm(log, docs, terms, i, d);
      OneMoreTerm(log, docs, more, |a|, d);
    }
  }

  lemma SameOrScan(log: Log, docs: Docs, a: seq<Term>, b: seq<Term>)
    requires SameQuery(log, docs, a, b)
    ensures OrScan(log, docs, a) == OrScan(log, docs, b)
  {
    hide HasAny, QueryScore;
  }

  lemma NothingForAll(log: Log, docs: Docs, index: Index, terms: seq<Term>, i: nat)
    requires Agrees(index, docs) && i < |terms| && terms[i] !in index
    ensures AndScan(log, docs, terms) == map[]
  {
    forall d | d in docs ensures !HasAll(docs, terms, d) {
      assert terms[i] in docs[d] ==> Occurs(docs, terms[i]);
    }
  }

  lemma NothingForAny(log: Log, docs: Docs, terms: seq<Term>)
    requires terms == []
    ensures OrScan(log, docs, terms) == map[]
  {
  }

  lemma NoAnswer(found: map<RowId, real>, limit: int)
    requires found == map[]
    ensures Answers([], found, limit)
  {
  }
}
