/**
 * The score of a document for a query, by scanning the documents, and what it ranks higher: rarer terms,
 * more occurrences, shorter documents.
 */
module SearchScores {
  import opened InvertedIndexes

  type Log = real -> real

  // ---------- Scores by scanning the documents ----------

  ghost function DocsWith(docs: Docs, t: Term): set<RowId> {
    set d | d in docs && t in docs[d]
  }

  function TermScore(log: Log, tf: nat, length: nat): real {
    if length == 0 then 0.0 else log(1.0 + tf as real) / length as real
  }

  function RarityScore(log: Log, total: nat, df: nat): real {
    if df == 0 || total == 0 then 0.0 else log(1.0 + total as real / df as real)
  }

  ghost function ScanScore(log: Log, docs: Docs, t: Term, d: RowId): real {
    if d in docs && t in docs[d]
    then TermScore(log, Count(docs[d], t), |docs[d]|) * RarityScore(log, |docs|, |DocsWith(docs, t)|)
    else 0.0
  }

  /** The score of a document for a query: its scores for the query's terms, added up. */
  ghost function QueryScore(log: Log, docs: Docs, terms: seq<Term>, d: RowId): real {
    if terms == [] then 0.0
    else QueryScore(log, docs, terms[..|terms| - 1], d) + ScanScore(log, docs, terms[|terms| - 1], d)
  }

  ghost predicate HasAll(docs: Docs, terms: seq<Term>, d: RowId) {
    d in docs && forall i :: 0 <= i < |terms| ==> terms[i] in docs[d]
  }

  ghost predicate HasAny(docs: Docs, terms: seq<Term>, d: RowId) {
    d in docs && exists i :: 0 <= i < |terms| && terms[i] in docs[d]
  }

  ghost function AndScan(log: Log, docs: Docs, terms: seq<Term>): map<RowId, real> {
    map d | d in docs && HasAll(docs, terms, d) :: QueryScore(log, docs, terms, d)
  }

  ghost function OrScan(log: Log, docs: Docs, terms: seq<Term>): map<RowId, real> {
    map d | d in docs && HasAny(docs, terms, d) :: QueryScore(log, docs, terms, d)
  }

  // ---------- What scores higher ----------

  /** A logarithm as ranking needs it: increasing, and positive above 1. */
  ghost predicate Rising(log: Log) {
    (forall x: real, y: real {:trigger log(x), log(y)} :: 1.0 <= x < y ==> log(x) < log(y)) &&
    forall x: real {:trigger log(x)} :: 1.0 < x ==> log(x) > 0.0
  }

  lemma LargerShare(total: nat, a: nat, b: nat)
    requires 0 < a < b && 0 < total
    ensures 0.0 < total as real / b as real < total as real / a as real
  {
    var n, x, y := total as real, a as real, b as real;
    assert n / x - n / y == n * (y - x) / (x * y);
  }

  /** A term in fewer documents weighs more. */
  lemma RarerWeighsMore(log: Log, total: nat, a: nat, b: nat)
    requires Rising(log) && 0 < a < b && 0 < total
    ensures RarityScore(log, total, a) > RarityScore(log, total, b) > 0.0
  {
    LargerShare(total, a, b);
    var x, y := 1.0 + total as real / b as real, 1.0 + total as real / a as real;
    assert log(x) > 0.0 && log(x) < log(y);
  }

  lemma RarityPositive(log: Log, total: nat, a: nat)
    requires Rising(log) && 0 < a && 0 < total
    ensures RarityScore(log, total, a) > 0.0
  {
    LargerShare(total, a, a + 1);
    assert log(1.0 + total as real / a as real) > 0.0;
  }

  lemma SameRatio(t: real, x: real, m: real, y: real)
    requires x > 0.0 && y > 0.0 && t * y == m * x
    ensures t / x == m / y
  {
    var p, q := t / x, m / y;
    assert p * x == t && q * y == m;
    assert (p * x) * y == (q * y) * x;
    assert (p - q) * (x * y) == 0.0;
  }

  /** Only the share of the documents counts, and a term that all of them have weighs log 2. */
  lemma RarityOfShare(log: Log, total: nat, a: nat, n: nat, b: nat)
    requires 0 < a && 0 < total && 0 < b && 0 < n && total * b == n * a
    ensures RarityScore(log, total, a) == RarityScore(log, n, b)
    ensures RarityScore(log, n, n) == log(2.0)
  {
    var t, x, m, y := total as real, a as real, n as real, b as real;
    assert (total * b) as real == t * y && (n * a) as real == m * x;
    SameRatio(t, x, m, y);
    assert m / m == 1.0;
  }

  /** A single occurrence weighs log 2 shared among the words of the document. */
  lemma SingleOccurrence(log: Log, length: nat)
    requires length > 0
    ensures TermScore(log, 1, length) * length as real == log(2.0)
  {
  }

  lemma Quotients(x: real, y: real, m: nat, n: nat)
    requires 0.0 <= x <= y && 0 < m <= n
    ensures 0.0 <= x / n as real <= y / m as real
    ensures y > 0.0 && (x < y || m < n) ==> x / n as real < y / m as real
  {
    var a, b := m as real, n as real;
    assert x / b == x * (1.0 / b) && y / b == y * (1.0 / b) && y / a == y * (1.0 / a);
    assert 0.0 < 1.0 / b <= 1.0 / a && (a < b ==> 1.0 / b < 1.0 / a) by { if m < n { LargerShare(1, m, n); } }
    Products(0.0, x, 1.0 / b);
    Products(x, y, 1.0 / b);
    if y > 0.0 { Products(1.0 / b, 1.0 / a, y); }
  }

  lemma LogOfCounts(log: Log, a: nat, b: nat)
    requires Rising(log) && a <= b
    ensures a < b ==> log(1.0 + a as real) < log(1.0 + b as real)
    ensures 0 < b ==> log(1.0 + b as real) > 0.0
  {
  }

  /** More occurrences in a shorter document weigh more. */
  lemma DenserWeighsMore(log: Log, a: nat, b: nat, m: nat, n: nat)
    requires Rising(log) && 0 < a <= b && 0 < m <= n
    ensures 0.0 < TermScore(log, a, n) <= TermScore(log, b, m)
    ensures a < b || m < n ==> TermScore(log, a, n) < TermScore(log, b, m)
  {
    LogOfCounts(log, a, b);
    Quotients(log(1.0 + a as real), log(1.0 + b as real), m, n);
    Quotients(0.0, log(1.0 + a as real), n, n);
  }

  lemma Products(x: real, y: real, w: real)
    requires x <= y && w > 0.0
    ensures x * w <= y * w && (x < y ==> x * w < y * w) && (x > 0.0 ==> x * w > 0.0)
  {
  }

  lemma Occurring(docs: Docs, t: Term, d: RowId)
    requires d in docs && t in docs[d]
    ensures Count(docs[d], t) > 0 && |docs[d]| > 0 && |DocsWith(docs, t)| > 0 && |docs| > 0
  {
    assert d in DocsWith(docs, t) && d in docs.Keys;
    assert t in multiset(docs[d]);
  }

  lemma ScorePositive(log: Log, docs: Docs, t: Term, d: RowId)
    requires Rising(log)
    ensures ScanScore(log, docs, t, d) >= 0.0
    ensures d in docs && t in docs[d] ==> ScanScore(log, docs, t, d) > 0.0
  {
    hide TermScore, RarityScore, Count, DocsWith;
    if d in docs && t in docs[d] {
      Occurring(docs, t, d);
      var n, k, df := |docs[d]|, Count(docs[d], t), |DocsWith(docs, t)|;
      DenserWeighsMore(log, k, k, n, n);
      RarityPositive(log, |docs|, df);
      Products(TermScore(log, k, n), TermScore(log, k, n), RarityScore(log, |docs|, df));
    }
  }

  /** At equal frequency and length the document with the rarer term scores strictly higher. */
  lemma RarerScoresHigher(log: Log, docs: Docs, t: Term, d: RowId, u: Term, e: RowId)
    requires Rising(log) && d in docs && t in docs[d] && e in docs && u in docs[e]
    requires Count(docs[d], t) == Count(docs[e], u) && |docs[d]| == |docs[e]| && |DocsWith(docs, t)| < |DocsWith(docs, u)|
    ensures ScanScore(log, docs, t, d) > ScanScore(log, docs, u, e)
  {
    hide TermScore, RarityScore, Count, DocsWith;
    Occurring(docs, t, d);
    var n, k := |docs[d]|, Count(docs[d], t);
    DenserWeighsMore(log, k, k, n, n);
    RarerWeighsMore(log, |docs|, |DocsWith(docs, t)|, |DocsWith(docs, u)|);
    var w, a, b := TermScore(log, k, n), RarityScore(log, |docs|, |DocsWith(docs, t)|), RarityScore(log, |docs|, |DocsWith(docs, u)|);
    Products(b, a, w);
    assert w * a == a * w && w * b == b * w;
  }

  /** For one term, a document that is not longer and has it not less often scores at least as much, and
      more if it is shorter or has it more often. */
  lemma DenserScoresHigher(log: Log, docs: Docs, t: Term, d: RowId, e: RowId)
    requires Rising(log) && d in docs && e in docs && |docs[d]| <= |docs[e]| && Count(docs[d], t) >= Count(docs[e], t)
    ensures ScanScore(log, docs, t, d) >= ScanScore(log, docs, t, e)
    ensures t in docs[d] && (Count(docs[d], t) > Count(docs[e], t) || |docs[d]| < |docs[e]|) ==>
              ScanScore(log, docs, t, d) > ScanScore(log, docs, t, e)
  {
    CountOccurs(docs[e], t);
    CountOccurs(docs[d], t);
    hide TermScore, RarityScore, Count, DocsWith;
    if t in docs[e] {
      Occurring(docs, t, e);
      Occurring(docs, t, d);
      DenserWeighsMore(log, Count(docs[e], t), Count(docs[d], t), |docs[d]|, |docs[e]|);
      RarityPositive(log, |docs|, |DocsWith(docs, t)|);
      Products(TermScore(log, Count(docs[e], t), |docs[e]|), TermScore(log, Count(docs[d], t), |docs[d]|),
               RarityScore(log, |docs|, |DocsWith(docs, t)|));
    } else {
      ScorePositive(log, docs, t, d);
    }
  }

  lemma CountOccurs(tokens: seq<Term>, t: Term)
    ensures t in tokens <==> Count(tokens, t) > 0
  {
    assert t in multiset(tokens) <==> t in tokens;
  }

  // ---------- Whole queries ----------

  /** `d` is not longer than `e` and has every query term not less often, and one query term that it has
      makes a difference. */
  ghost predicate Dominates(docs: Docs, terms: seq<Term>, d: RowId, e: RowId) {
    d in docs && e in docs && |docs[d]| <= |docs[e]| &&
    (forall i :: 0 <= i < |terms| ==> Count(docs[d], terms[i]) >= Count(docs[e], terms[i])) &&
    exists i :: 0 <= i < |terms| && terms[i] in docs[d] && (Count(docs[d], terms[i]) > Count(docs[e], terms[i]) || |docs[d]| < |docs[e]|)
  }

  lemma {:induction false} DominantScore(log: Log, docs: Docs, terms: seq<Term>, d: RowId, e: RowId)
    requires Rising(log) && d in docs && e in docs && |docs[d]| <= |docs[e]|
    requires forall i :: 0 <= i < |terms| ==> Count(docs[d], terms[i]) >= Count(docs[e], terms[i])
    ensures QueryScore(log, docs, terms, d) >= QueryScore(log, docs, terms, e)
    ensures Dominates(docs, terms, d, e) ==> QueryScore(log, docs, terms, d) > QueryScore(log, docs, terms, e)
    decreases |terms|
  {
    hide Count, ScanScore;
    if terms != [] {
      var n := |terms| - 1;
      DominantScore(log, docs, terms[..n], d, e);
      DenserScoresHigher(log, docs, terms[n], d, e);
      if Dominates(docs, terms, d, e) {
        var i :| 0 <= i < |terms| && terms[i] in docs[d] && (Count(docs[d], terms[i]) > Count(docs[e], terms[i]) || |docs[d]| < |docs[e]|);
        if i < n {
          assert terms[..n][i] == terms[i];
          assert Dominates(docs, terms[..n], d, e);
        }
      }
    }
  }

  /** Term `k` of the query is the only one that the document has. */
  ghost predicate OnlyTerm(docs: Docs, terms: seq<Term>, d: RowId, k: nat) {
    d in docs && k < |terms| && forall i :: 0 <= i < |terms| ==> (terms[i] in docs[d] <==> i == k)
  }

  lemma {:induction false} NoTermNoScore(log: Log, docs: Docs, terms: seq<Term>, d: RowId)
    requires d in docs && forall i :: 0 <= i < |terms| ==> terms[i] !in docs[d]
    ensures QueryScore(log, docs, terms, d) == 0.0
    decreases |terms|
  {
    if terms != [] {
      var front := terms[..|terms| - 1];
      assert forall i :: 0 <= i < |front| ==> front[i] == terms[i];
      NoTermNoScore(log, docs, front, d);
    }
  }

  lemma {:induction false} OnlyTermScore(log: Log, docs: Docs, terms: seq<Term>, d: RowId, k: nat)
    requires OnlyTerm(docs, terms, d, k)
    ensures QueryScore(log, docs, terms, d) == ScanScore(log, docs, terms[k], d)
    decreases |terms|
  {
    var n := |terms| - 1;
    if k == n {
      NoTermNoScore(log, docs, terms[..n], d);
    } else {
      OnlyTermScore(log, docs, terms[..n], d, k);
      assert ScanScore(log, docs, terms[n], d) == 0.0;
    }
  }

  /** Each document has one of the query terms, both as often and in as many words; that of `d` occurs in
      fewer documents. */
  ghost predicate HasRarer(docs: Docs, terms: seq<Term>, d: RowId, e: RowId) {
    exists j: nat, k: nat :: OnlyTerm(docs, terms, d, j) && OnlyTerm(docs, terms, e, k) &&
      Count(docs[d], terms[j]) == Count(docs[e], terms[k]) && |docs[d]| == |docs[e]| &&
      |DocsWith(docs, terms[j])| < |DocsWith(docs, terms[k])|
  }

  lemma RarerQueryScore(log: Log, docs: Docs, terms: seq<Term>, d: RowId, e: RowId)
    requires Rising(log) && HasRarer(docs, terms, d, e)
    ensures QueryScore(log, docs, terms, d) > QueryScore(log, docs, terms, e) && HasAny(docs, terms, d)
  {
    hide Count, DocsWith, ScanScore;
    var j: nat, k: nat :| OnlyTerm(docs, terms, d, j) && OnlyTerm(docs, terms, e, k) &&
      Count(docs[d], terms[j]) == Count(docs[e], terms[k]) && |docs[d]| == |docs[e]| &&
      |DocsWith(docs, terms[j])| < |DocsWith(docs, terms[k])|;
    OnlyTermScore(log, docs, terms, d, j);
    OnlyTermScore(log, docs, terms, e, k);
    RarerScoresHigher(log, docs, terms[j], d, terms[k], e);
  }

  /** Wherever `e` is listed, `d` is listed before it. */
  predicate ComesFirst(rs: seq<SearchResult>, d: RowId, e: RowId) {
    forall j :: 0 <= j < |rs| && rs[j].docId == e ==> exists i :: 0 <= i < j && rs[i].docId == d
  }

  /** A document with a rarer term, and one that dominates another, comes first. */
  ghost predicate RanksAny(rs: seq<SearchResult>, docs: Docs, terms: seq<Term>) {
    forall d, e {:trigger ComesFirst(rs, d, e)} ::
      d in docs && e in docs && (HasRarer(docs, terms, d, e) || Dominates(docs, terms, d, e)) ==> ComesFirst(rs, d, e)
  }

  ghost predicate RanksAll(rs: seq<SearchResult>, docs: Docs, terms: seq<Term>) {
    forall d, e {:trigger ComesFirst(rs, d, e)} :: d in docs && e in docs && Dominates(docs, terms, d, e) ==> ComesFirst(rs, d, e)
  }
}
