/**
 * The full-text index: posting lists per term, compared with a plain scan of the documents' tokens.
 * `docs` holds those tokens.  Logarithm and tokenizer are given; scores are reals.
 */
module InvertedIndexes {

  type RowId = nat
  type Term = string
  type Docs = map<RowId, seq<Term>>

  const INVALID_ROW_ID: RowId := 0

  datatype Posting = Posting(docId: RowId, tf: nat)
  datatype PostingList = PostingList(df: nat, postings: seq<Posting>)
  datatype SearchResult = SearchResult(docId: RowId, score: real)

  type Index = map<Term, PostingList>

  function Count(tokens: seq<Term>, t: Term): nat {
    multiset(tokens)[t]
  }

  function TermSet(tokens: seq<Term>): set<Term> {
    set t | t in tokens
  }

  // ---------- Agreement with the documents ----------

  predicate OncePerDoc(postings: seq<Posting>) {
    forall i, j :: 0 <= i < j < |postings| ==> postings[i].docId != postings[j].docId
  }

  ghost predicate Lists(postings: seq<Posting>, d: RowId) {
    exists i :: 0 <= i < |postings| && postings[i].docId == d
  }

  /** The list of a term: every document that contains it once, with the right frequency. */
  ghost predicate ListOk(list: PostingList, docs: Docs, t: Term) {
    list.df == |list.postings| && OncePerDoc(list.postings) &&
    (forall i :: 0 <= i < |list.postings| ==>
       var p := list.postings[i]; p.docId in docs && t in docs[p.docId] && p.tf == Count(docs[p.docId], t)) &&
    (forall d :: d in docs && t in docs[d] ==> Lists(list.postings, d))
  }

  ghost predicate Occurs(docs: Docs, t: Term) {
    exists d :: d in docs && t in docs[d]
  }

  ghost predicate Agrees(index: Index, docs: Docs) {
    (forall t {:trigger ListOk(index[t], docs, t)} :: t in index ==> ListOk(index[t], docs, t) && index[t].postings != []) &&
    (forall t :: Occurs(docs, t) ==> t in index)
  }

  // ---------- Inserting and removing, as functions ----------

  function With(list: PostingList, p: Posting): PostingList {
    PostingList(list.df + 1, list.postings + [p])
  }

  function ListFor(index: Index, t: Term): PostingList {
    if t in index then index[t] else PostingList(0, [])
  }

  /** The index after the terms in `terms` got a posting each. */
  function Inserted(index: Index, d: RowId, tokens: seq<Term>, terms: set<Term>): Index {
    map t | t in index.Keys + terms ::
      if t in terms then With(ListFor(index, t), Posting(d, Count(tokens, t))) else index[t]
  }

  function FindDoc(postings: seq<Posting>, d: RowId): (i: nat)
    ensures i <= |postings| && (i < |postings| ==> postings[i].docId == d)
    ensures forall j :: 0 <= j < i ==> postings[j].docId != d
  {
    if postings == [] || postings[0].docId == d then 0
    else
      var i := FindDoc(postings[1..], d);
      assert forall j :: 0 < j < |postings| ==> postings[j] == postings[1..][j - 1];
      i + 1
  }

  function Without(list: PostingList, d: RowId): PostingList
    requires list.df == |list.postings|
  {
    var i := FindDoc(list.postings, d);
    if i == |list.postings| then list else PostingList(list.df - 1, list.postings[..i] + list.postings[i + 1..])
  }

  ghost predicate Counted(index: Index) {
    forall t :: t in index ==> index[t].df == |index[t].postings|
  }

  function Removed(index: Index, d: RowId): Index
    requires Counted(index)
  {
    map t | t in index && Without(index[t], d).postings != [] :: Without(index[t], d)
  }

  lemma FindDocIs(postings: seq<Posting>, d: RowId, i: nat)
    requires i < |postings| && postings[i].docId == d && forall j :: 0 <= j < i ==> postings[j].docId != d
    ensures FindDoc(postings, d) == i
  {
  }

  lemma WithIsOk(list: PostingList, docs: Docs, t: Term, d: RowId, tokens: seq<Term>)
    requires ListOk(list, docs, t) && d !in docs && t in tokens
    ensures ListOk(With(list, Posting(d, Count(tokens, t))), docs[d := tokens], t)
  {
    var list' := With(list, Posting(d, Count(tokens, t)));
    var docs' := docs[d := tokens];
    assert list'.postings[|list.postings|].docId == d;
    forall x | x in docs' && t in docs'[x] ensures Lists(list'.postings, x) {
      if x != d {
        var i :| 0 <= i < |list.postings| && list.postings[i].docId == x;
        assert list'.postings[i] == list.postings[i];
      }
    }
  }

  lemma OtherListOk(list: PostingList, docs: Docs, t: Term, d: RowId, tokens: seq<Term>)
    requires ListOk(list, docs, t) && d !in docs && t !in tokens
    ensures ListOk(list, docs[d := tokens], t)
  {
  }

  /** A fresh document's terms join the lists; nothing else changes. */
  lemma InsertAgrees(index: Index, docs: Docs, d: RowId, tokens: seq<Term>)
    requires Agrees(index, docs) && d !in docs
    ensures Agrees(Inserted(index, d, tokens, TermSet(tokens)), docs[d := tokens])
  {
    var index', docs' := Inserted(index, d, tokens, TermSet(tokens)), docs[d := tokens];
    hide ListOk;
    forall t | t in index' ensures ListOk(index'[t], docs', t) && index'[t].postings != [] {
      if t in tokens {
        if t !in index { NewListOk(docs, t, index); } else { assert ListOk(index[t], docs, t); }
        WithIsOk(ListFor(index, t), docs, t, d, tokens);
      } else {
        assert ListOk(index[t], docs, t);
        OtherListOk(index[t], docs, t, d, tokens);
      }
    }
    forall t | Occurs(docs', t) ensures t in index' {
      var x :| x in docs' && t in docs'[x];
      if x != d { assert Occurs(docs, t); }
    }
  }

  lemma NewListOk(docs: Docs, t: Term, index: Index)
    requires Agrees(index, docs) && t !in index
    ensures ListOk(PostingList(0, []), docs, t)
  {
    forall x | x in docs ensures t !in docs[x] {
      assert t in docs[x] ==> Occurs(docs, t);
    }
  }

  /** Where the postings of a list go when posting `i` is taken out. */
  lemma TakenOut(ps: seq<Posting>, i: nat)
    requires i < |ps| && OncePerDoc(ps)
    ensures var qs := ps[..i] + ps[i + 1..];
            |qs| == |ps| - 1 && OncePerDoc(qs) &&
            (forall j :: 0 <= j < |qs| ==> qs[j] in ps && qs[j].docId != ps[i].docId) &&
            (forall x :: x != ps[i].docId && Lists(ps, x) ==> Lists(qs, x))
  {
    var qs := ps[..i] + ps[i + 1..];
    forall j | 0 <= j < |qs| ensures qs[j] == ps[if j < i then j else j + 1] {
    }
    forall x | x != ps[i].docId && Lists(ps, x) ensures Lists(qs, x) {
      var j :| 0 <= j < |ps| && ps[j].docId == x;
      assert qs[if j < i then j else j - 1] == ps[j];
    }
  }

  lemma WithoutIsOk(list: PostingList, docs: Docs, t: Term, d: RowId)
    requires ListOk(list, docs, t)
    ensures ListOk(Without(list, d), docs - {d}, t)
  {
    var docs', i := docs - {d}, FindDoc(list.postings, d);
    var list' := Without(list, d);
    if i < |list.postings| {
      TakenOut(list.postings, i);
    }
    hide FindDoc;
    forall j | 0 <= j < |list'.postings|
      ensures var p := list'.postings[j]; p.docId in docs' && t in docs'[p.docId] && p.tf == Count(docs'[p.docId], t)
    {
      assert list'.postings[j] in list.postings;
    }
    forall x | x in docs' && t in docs'[x] ensures Lists(list'.postings, x) {
      assert x in docs && t in docs[x];
    }
  }

  lemma RemoveAgrees(index: Index, docs: Docs, d: RowId)
    requires Agrees(index, docs)
    ensures Counted(index) && Agrees(Removed(index, d), docs - {d})
  {
    forall t | t in index ensures index[t].df == |index[t].postings| {
      assert ListOk(index[t], docs, t);
    }
    var index', docs' := Removed(index, d), docs - {d};
    forall t | t in index' ensures ListOk(index'[t], docs', t) && index'[t].postings != [] {
      assert ListOk(index[t], docs, t);
      WithoutIsOk(index[t], docs, t, d);
    }
    forall t | Occurs(docs', t) ensures t in index' {
      var x :| x in docs' && t in docs'[x];
      assert Occurs(docs, t);
      assert ListOk(index[t], docs, t);
      WithoutIsOk(index[t], docs, t, d);
      assert Lists(Without(index[t], d).postings, x);
    }
  }

  /** Inserting a fresh document and removing it leaves the index as it was, list by list. */
  lemma InsertThenRemove(index: Index, docs: Docs, d: RowId, tokens: seq<Term>)
    requires Agrees(index, docs) && d !in docs
    ensures Counted(Inserted(index, d, tokens, TermSet(tokens)))
    ensures Removed(Inserted(index, d, tokens, TermSet(tokens)), d) == index
  {
    var mid := Inserted(index, d, tokens, TermSet(tokens));
    InsertAgrees(index, docs, d, tokens);
    RemoveAgrees(mid, docs[d := tokens], d);
    forall t | t in mid
      ensures t !in index ==> Without(mid[t], d).postings == []
      ensures t in index ==> Without(mid[t], d) == index[t] && index[t].postings != []
    {
      if t in index {
        assert ListOk(index[t], docs, t);
        WithoutFresh(index[t], docs, t, d, Count(tokens, t));
      }
    }
    assert Removed(mid, d).Keys == index.Keys;
  }

  lemma WithoutFresh(list: PostingList, docs: Docs, t: Term, d: RowId, tf: nat)
    requires ListOk(list, docs, t) && d !in docs
    ensures Without(list, d) == list && Without(With(list, Posting(d, tf)), d) == list
  {
    var longer := With(list, Posting(d, tf)).postings;
    FindDocIs(longer, d, |list.postings|);
    assert longer[..|list.postings|] + longer[|list.postings| + 1..] == list.postings;
  }

  // ---------- Term frequencies ----------

  ghost function Sum(m: map<Term, nat>): nat
    decreases |m|
  {
    if m == map[] then 0
    else
      var t :| t in m;
      assert (m - {t}).Keys == m.Keys - {t};
      m[t] + Sum(m - {t})
  }

  lemma {:induction false} SumWithout(m: map<Term, nat>, t: Term)
    requires t in m
    ensures Sum(m) == m[t] + Sum(m - {t})
    decreases |m|
  {
    var u :| u in m && Sum(m) == m[u] + Sum(m - {u});
    if u != t {
      var fewer := m - {u};
      assert fewer.Keys == m.Keys - {u};
      SumWithout(fewer, t);
      assert m - {t} - {u} == fewer - {t};
      assert (m - {t}).Keys == m.Keys - {t};
      SumWithout(m - {t}, u);
    }
  }

  function Frequencies(tokens: seq<Term>): map<Term, nat> {
    map t | t in tokens :: Count(tokens, t)
  }

  /** The frequencies of a document's terms add up to its length. */
  lemma {:induction false} FrequenciesSum(tokens: seq<Term>)
    ensures Sum(Frequencies(tokens)) == |tokens|
    decreases |tokens|
  {
    if tokens != [] {
      var front, last := tokens[..|tokens| - 1], tokens[|tokens| - 1];
      assert tokens == front + [last];
      FrequenciesSum(front);
      var f, g := Frequencies(front), Frequencies(tokens);
      assert forall t :: Count(tokens, t) == Count(front, t) + if t == last then 1 else 0;
      assert f - {last} == g - {last};
      SumWithout(g, last);
      if last in f { SumWithout(f, last); } else { assert f - {last} == f; }
    } else {
      assert Frequencies(tokens) == map[];
    }
  }
}
