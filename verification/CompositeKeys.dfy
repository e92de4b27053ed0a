/**
 * Comparing and hashing composite index keys.  A column is read through the conversion its type asks for,
 * so keys compare by what their columns convert to; integer, boolean, binary and text columns are modelled.
 * The order is stated once, as a lexicographic order over the order of the columns.
 */
module CompositeKeys {
  import opened Numbers

  /** A UTF-16 code unit. */
  type Unit = x: nat | x < 0x1_0000
  type Int64 = x: int | -0x8000_0000_0000_0000 <= x < 0x8000_0000_0000_0000

  /** CHAR is compared without the white space around it, other text as it is. */
  datatype ColumnType = Integer | Boolean | Binary | Text | Char

  datatype Key<V> = Key(values: seq<V>, types: seq<ColumnType>)

  predicate KeyOk<V>(k: Key<V>) {
    |k.values| == |k.types|
  }

  /** What the library underneath makes of a stored value, and its hash of a text. */
  datatype Conversions<!V> = Conversions(
    isNull: V -> bool, toInt: V -> Int64, toBool: V -> bool, toBytes: V -> seq<Byte>, toText: V -> seq<Unit>,
    isSpace: Unit -> bool, textHash: seq<Unit> -> U64)

  function Trimmed(s: seq<Unit>, isSpace: Unit -> bool): seq<Unit> {
    if s == [] then s
    else if isSpace(s[0]) then Trimmed(s[1..], isSpace)
    else if isSpace(s[|s| - 1]) then Trimmed(s[..|s| - 1], isSpace)
    else s
  }

  /** Exactly the white space at both ends is gone. */
  lemma {:induction false} TrimmedIs(s: seq<Unit>, isSpace: Unit -> bool) returns (i: nat, j: nat)
    ensures i <= j <= |s| && Trimmed(s, isSpace) == s[i..j]
    ensures (forall k :: 0 <= k < i || j <= k < |s| ==> isSpace(s[k])) && (i < j ==> !isSpace(s[i]) && !isSpace(s[j - 1]))
    decreases |s|
  {
    i, j := 0, |s|;
    if s == [] {
    } else if isSpace(s[0]) {
      var a, b := TrimmedIs(s[1..], isSpace);
      assert forall k :: 0 < k < |s| ==> s[k] == s[1..][k - 1];
      i, j := a + 1, b + 1;
    } else if isSpace(s[|s| - 1]) {
      var n := |s| - 1;
      i, j := TrimmedIs(s[..n], isSpace);
      assert forall k :: 0 <= k < n ==> s[k] == s[..n][k];
    }
  }

  /** A value as its column shows it to the comparison. */
  datatype View = Absent | Number(number: Int64) | Flag(flag: bool) | Units(units: seq<nat>)

  function Seen<V>(c: Conversions<V>, v: V, t: ColumnType): View {
    if c.isNull(v) then Absent
    else match t
      case Integer => Number(c.toInt(v))
      case Boolean => Flag(c.toBool(v))
      case Binary => Units(c.toBytes(v))
      case Text => Units(c.toText(v))
      case Char => Units(Trimmed(c.toText(v), c.isSpace))
  }

  /** The values as columns of the given types; values without a column are not looked at. */
  function Views<V>(c: Conversions<V>, values: seq<V>, types: seq<ColumnType>): (views: seq<View>)
    ensures |views| == |values|
    ensures forall i :: 0 <= i < |views| ==> views[i] == if i < |types| then Seen(c, values[i], types[i]) else Absent
  {
    seq(|values|, i requires 0 <= i < |values| => if i < |types| then Seen(c, values[i], types[i]) else Absent)
  }

  // ---------- The order ----------

  /** `a` comes first at position `k`: equal before it, and there shorter or smaller. */
  ghost predicate FirstAt<T(!new)>(a: seq<T>, b: seq<T>, less: (T, T) -> bool, k: nat) {
    k <= |a| && k < |b| && a[..k] == b[..k] && (k == |a| || less(a[k], b[k]))
  }

  ghost predicate LexBefore<T(!new)>(a: seq<T>, b: seq<T>, less: (T, T) -> bool) {
    exists k :: 0 <= k && FirstAt(a, b, less, k)
  }

  ghost predicate StrictOrder<T(!new)>(less: (T, T) -> bool) {
    (forall x :: !less(x, x)) && forall x, y, z {:trigger less(x, y), less(y, z)} :: less(x, y) && less(y, z) ==> less(x, z)
  }

  lemma LexIrreflexive<T(!new)>(a: seq<T>, less: (T, T) -> bool)
    requires StrictOrder(less)
    ensures !LexBefore(a, a, less)
  {
  }

  lemma LexTransitive<T(!new)>(a: seq<T>, b: seq<T>, c: seq<T>, less: (T, T) -> bool)
    requires StrictOrder(less) && LexBefore(a, b, less) && LexBefore(b, c, less)
    ensures LexBefore(a, c, less)
  {
    var i :| 0 <= i && FirstAt(a, b, less, i);
    var j :| 0 <= j && FirstAt(b, c, less, j);
    var k := if i < j then i else j;
    assert a[..k] == a[..i][..k] == b[..i][..k] == b[..k];
    assert b[..k] == b[..j][..k] == c[..j][..k] == c[..k];
    if i < j { assert b[i] == b[..j][i] == c[..j][i] == c[i]; }
    if j < i { assert a[j] == a[..i][j] == b[..i][j] == b[j]; }
    assert FirstAt(a, c, less, k);
  }

  function UnitLess(): (nat, nat) -> bool {
    (x: nat, y: nat) => x < y
  }

  /** NULL first, then numbers by size, false before true, strings of bytes or units lexicographically. */
  ghost predicate Before(v: View, w: View) {
    match w
    case Absent => false
    case Number(m) => v.Absent? || (v.Number? && v.number < m)
    case Flag(g) => v.Absent? || (v.Flag? && !v.flag && g)
    case Units(c) => v.Absent? || (v.Units? && LexBefore(v.units, c, UnitLess()))
  }

  ghost function ViewLess(): (View, View) -> bool {
    (v, w) => Before(v, w)
  }

  lemma UnitOrder()
    ensures StrictOrder(UnitLess())
  {
  }

  lemma ViewOrder()
    ensures StrictOrder(ViewLess())
  {
    UnitOrder();
    forall x: View ensures !Before(x, x) {
      if x.Units? { LexIrreflexive(x.units, UnitLess()); }
    }
    forall x, y, z | Before(x, y) && Before(y, z) ensures Before(x, z) {
      if x.Units? && y.Units? && z.Units? { LexTransitive(x.units, y.units, z.units, UnitLess()); }
    }
  }

  /** The order of keys with columns of the given types: lexicographic in what their columns show, so a
      proper prefix comes first. */
  ghost predicate KeyBefore<V>(c: Conversions<V>, types: seq<ColumnType>, a: seq<V>, b: seq<V>) {
    LexBefore(Views(c, a, types), Views(c, b, types), ViewLess())
  }

  /** The columns show the same: both are NULL, or neither is and the conversions agree. */
  predicate Agree<V>(c: Conversions<V>, v: V, w: V, t: ColumnType) {
    c.isNull(v) == c.isNull(w) &&
    (!c.isNull(v) ==>
      match t
      case Integer => c.toInt(v) == c.toInt(w)
      case Boolean => c.toBool(v) == c.toBool(w)
      case Binary => c.toBytes(v) == c.toBytes(w)
      case Text => c.toText(v) == c.toText(w)
      case Char => Trimmed(c.toText(v), c.isSpace) == Trimmed(c.toText(w), c.isSpace))
  }

  ghost predicate AllAgree<V>(c: Conversions<V>, types: seq<ColumnType>, a: seq<V>, b: seq<V>) {
    |a| == |b| && forall i :: 0 <= i < |a| && i < |types| ==> Agree(c, a[i], b[i], types[i])
  }

  lemma AgreeIsSameViews<V>(c: Conversions<V>, types: seq<ColumnType>, a: seq<V>, b: seq<V>)
    ensures AllAgree(c, types, a, b) <==> Views(c, a, types) == Views(c, b, types)
  {
    hide Trimmed;
    if Views(c, a, types) == Views(c, b, types) {
      forall i | 0 <= i < |a| && i < |types| ensures Agree(c, a[i], b[i], types[i]) {
        assert Views(c, a, types)[i] == Views(c, b, types)[i];
      }
    }
  }

  /** A total order on keys up to agreement, for any conversions: irreflexive and transitive, and keys that
      agree stand at the same place. */
  lemma KeyOrder<V>(c: Conversions<V>, types: seq<ColumnType>, x: seq<V>, y: seq<V>, z: seq<V>)
    ensures !KeyBefore(c, types, x, x)
    ensures KeyBefore(c, types, x, y) && KeyBefore(c, types, y, z) ==> KeyBefore(c, types, x, z)
    ensures !(KeyBefore(c, types, x, y) && KeyBefore(c, types, y, x))
    ensures AllAgree(c, types, x, y) ==> (KeyBefore(c, types, x, z) <==> KeyBefore(c, types, y, z))
    ensures AllAgree(c, types, x, y) ==> (KeyBefore(c, types, z, x) <==> KeyBefore(c, types, z, y))
  {
    hide Views;
    ViewOrder();
    AgreeIsSameViews(c, types, x, y);
    var a, b, d := Views(c, x, types), Views(c, y, types), Views(c, z, types);
    LexIrreflexive(a, ViewLess());
    if LexBefore(a, b, ViewLess()) && LexBefore(b, d, ViewLess()) { LexTransitive(a, b, d, ViewLess()); }
    if LexBefore(a, b, ViewLess()) && LexBefore(b, a, ViewLess()) { LexTransitive(a, b, a, ViewLess()); }
  }

  /** A proper prefix comes first. */
  lemma PrefixFirst<V>(c: Conversions<V>, types: seq<ColumnType>, a: seq<V>, b: seq<V>)
    requires |a| < |b| && AllAgree(c, types, a, b[..|a|])
    ensures KeyBefore(c, types, a, b)
  {
    AgreeIsSameViews(c, types, a, b[..|a|]);
    var u, w := Views(c, a, types), Views(c, b, types);
    assert u[..|a|] == u == Views(c, b[..|a|], types) == w[..|a|];
    assert FirstAt(u, w, ViewLess(), |a|);
  }

  // ---------- Comparing ----------

  /** The sign of a comparison says where the two stand; zero means equal. */
  ghost predicate Says<T(!new)>(r: int, a: T, b: T, before: (T, T) -> bool) {
    (r < 0 ==> before(a, b)) && (r > 0 ==> before(b, a)) && (r == 0 ==> a == b)
  }

  ghost function UnitsBefore(): (seq<nat>, seq<nat>) -> bool {
    (a, b) => LexBefore(a, b, UnitLess())
  }

  /** Bytes are compared by this loop, and the library compares the units of texts in the same way. */
  method CompareBinary(a: seq<nat>, b: seq<nat>) returns (r: int)
    ensures Says(r, a, b, UnitsBefore())
  {
    var n := if |a| < |b| then |a| else |b|;
    var i := 0;
    while i < n
      invariant i <= n && a[..i] == b[..i]
    {
      if a[i] < b[i] {
        assert FirstAt(a, b, UnitLess(), i);
        return -1;
      }
      if a[i] > b[i] {
        assert FirstAt(b, a, UnitLess(), i);
        return 1;
      }
      i := i + 1;
    }
    if |a| < |b| {
      assert FirstAt(a, b, UnitLess(), |a|);
      return -1;
    }
    if |a| > |b| {
      assert FirstAt(b, a, UnitLess(), |b|);
      return 1;
    }
    assert a == a[..n] && b == b[..n];
    return 0;
  }

  method CompareValue<V>(c: Conversions<V>, v: V, w: V, t: ColumnType) returns (r: int)
    ensures Says(r, Seen(c, v, t), Seen(c, w, t), ViewLess())
    ensures r == 0 <==> Agree(c, v, w, t)
  {
    hide Trimmed;
    ViewOrder();
    var null1, null2 := c.isNull(v), c.isNull(w);
    if null1 && null2 { return 0; }
    if null1 { return -1; }
    if null2 { return 1; }
    match t {
      case Integer =>
        var n, m := c.toInt(v), c.toInt(w);
        if n < m { return -1; }
        if n > m { return 1; }
        return 0;
      case Boolean =>
        var f, g := c.toBool(v), c.toBool(w);
        if !f && g { return -1; }
        if f && !g { return 1; }
        return 0;
      case Binary =>
        r := CompareBinary(c.toBytes(v), c.toBytes(w));
      case Text =>
        r := CompareBinary(c.toText(v), c.toText(w));
      case Char =>
        r := CompareBinary(Trimmed(c.toText(v), c.isSpace), Trimmed(c.toText(w), c.isSpace));
    }
  }

  /** Negative, zero or positive exactly as the first key comes before, agrees with or comes after the
      second, where both are read through the column types of the first. */
  method Compare<V>(c: Conversions<V>, a: Key<V>, b: Key<V>) returns (r: int)
    requires KeyOk(a)
    ensures r < 0 <==> KeyBefore(c, a.types, a.values, b.values)
    ensures r > 0 <==> KeyBefore(c, a.types, b.values, a.values)
    ensures r == 0 <==> AllAgree(c, a.types, a.values, b.values)
  {
    hide Before, Seen;
    var n := if |a.values| < |b.values| then |a.values| else |b.values|;
    ghost var u, w := Views(c, a.values, a.types), Views(c, b.values, a.types);
    hide Views;
    KeyOrder(c, a.types, a.values, b.values, a.values);
    AgreeIsSameViews(c, a.types, a.values, b.values);
    var i := 0;
    while i < n
      invariant i <= n && u[..i] == w[..i]
    {
      r := CompareValue(c, a.values[i], b.values[i], a.types[i]);
      if r != 0 {
        if r < 0 { assert FirstAt(u, w, ViewLess(), i); } else { assert FirstAt(w, u, ViewLess(), i); }
        return;
      }
      i := i + 1;
    }
    r := |a.values| - |b.values|;
    if r < 0 {
      assert FirstAt(u, w, ViewLess(), n);
    } else if r > 0 {
      assert FirstAt(w, u, ViewLess(), n);
    } else {
      assert u == u[..n] && w == w[..n];
    }
  }

  /** Stored values as numbers that are true when they are not 0. */
  function TruthOfNumbers(): Conversions<Int64> {
    Conversions((n: Int64) => false, (n: Int64) => n, (n: Int64) => n != 0, (n: Int64) => [], (n: Int64) => [],
                (u: Unit) => false, (s: seq<Unit>) => 0)
  }

  /** Different keys can compare equal, and the column types decide: as booleans 1 and 2 are the same
      key, as integers they are two. */
  method DifferentKeysAgree() returns (asFlags: int, asNumbers: int)
    ensures asFlags == 0 && asNumbers < 0
  {
    asFlags := Compare(TruthOfNumbers(), Key([1], [Boolean]), Key([2], [Boolean]));
    asNumbers := Compare(TruthOfNumbers(), Key([1], [Integer]), Key([2], [Integer]));
    assert Agree(TruthOfNumbers(), 1, 2, Boolean);
    assert !Agree(TruthOfNumbers(), [1][0], [2][0], [Integer][0]);
    var u, w := Views(TruthOfNumbers(), [1], [Integer]), Views(TruthOfNumbers(), [2], [Integer]);
    assert u == [Number(1)] && w == [Number(2)];
    assert FirstAt(u, w, ViewLess(), 0);
  }

  // ---------- Hashing ----------

  const FNV_OFFSET: U64 := 14695981039346656037
  const FNV_PRIME: U64 := 1099511628211

  function ExclusiveOr(a: Byte, b: Byte): Byte {
    ((a as bv8) ^ (b as bv8)) as Byte
  }

  /** A byte only meets the lowest eight bits. */
  function Mix(h: U64, b: Byte): U64 {
    Wrap64((h - h % 256 + ExclusiveOr(h % 256, b)) * FNV_PRIME)
  }

  function Combine(h: U64, next: U64): U64 {
    Wrap64(31 * h + next)
  }

  function BinaryHash(b: seq<Byte>): U64 {
    if b == [] then FNV_OFFSET else Mix(BinaryHash(b[..|b| - 1]), b[|b| - 1])
  }

  /** The published FNV-1a values of no bytes and of the letter a. */
  lemma KnownHashes()
    ensures BinaryHash([]) == 0xcbf2_9ce4_8422_2325 && BinaryHash([97]) == 0xaf63_dc4c_8601_ec8c
  {
    hide Mix;
    assert [97][..0] == [];
    MixOf();
  }

  lemma MixOf()
    ensures Mix(FNV_OFFSET, 97) == 0xaf63_dc4c_8601_ec8c
  {
    ExclusiveOrOf();
    hide ExclusiveOr;
    assert FNV_OFFSET % 256 == 37;
    assert (FNV_OFFSET + 31) * FNV_PRIME == 16158402040730025868984903134348;
  }

  lemma ExclusiveOrOf()
    ensures ExclusiveOr(37, 97) == 68
  {
  }

  /** Texts are hashed as they are, CHAR columns included. */
  function ValueHash<V>(c: Conversions<V>, v: V, t: ColumnType): U64 {
    if c.isNull(v) then 0
    else match t
      case Integer => var n := c.toInt(v); if n < 0 then n + 0x1_0000_0000_0000_0000 else n
      case Boolean => if c.toBool(v) then 1 else 0
      case Binary => BinaryHash(c.toBytes(v))
      case _ => c.textHash(c.toText(v))
  }

  function KeyHash<V>(c: Conversions<V>, values: seq<V>, types: seq<ColumnType>): U64
    requires |values| == |types|
  {
    if values == [] then 0
    else
      var n := |values| - 1;
      Combine(KeyHash(c, values[..n], types[..n]), ValueHash(c, values[n], types[n]))
  }

  method HashBinary(b: seq<Byte>) returns (h: U64)
    ensures h == BinaryHash(b)
  {
    hide Mix;
    h := FNV_OFFSET;
    var i := 0;
    while i < |b|
      invariant i <= |b| && h == BinaryHash(b[..i])
    {
      assert b[..i + 1][..i] == b[..i];
      h := Mix(h, b[i]);
      i := i + 1;
    }
    assert b[..i] == b;
  }

  method Hash<V>(c: Conversions<V>, k: Key<V>) returns (h: U64)
    requires KeyOk(k)
    ensures h == KeyHash(c, k.values, k.types)
  {
    hide BinaryHash, Combine;
    h := 0;
    var i := 0;
    while i < |k.values|
      invariant i <= |k.values| && h == KeyHash(c, k.values[..i], k.types[..i])
    {
      assert k.values[..i + 1][..i] == k.values[..i] && k.types[..i + 1][..i] == k.types[..i];
      var one: U64;
      if !c.isNull(k.values[i]) && k.types[i].Binary? {
        one := HashBinary(c.toBytes(k.values[i]));
      } else {
        one := ValueHash(c, k.values[i], k.types[i]);
      }
      h := Combine(h, one);
      i := i + 1;
    }
    assert k.values[..i] == k.values && k.types[..i] == k.types;
  }

  /** Whatever the conversions, keys with these columns that compare equal have equal hashes. */
  ghost predicate HashFollows(types: seq<ColumnType>) {
    forall c: Conversions<seq<Unit>>, a: seq<seq<Unit>>, b: seq<seq<Unit>> ::
      |a| == |types| && AllAgree(c, types, a, b) ==> KeyHash(c, a, types) == KeyHash(c, b, types)
  }

  /** Without CHAR columns equal keys have equal hashes. */
  lemma {:induction false} AgreeingKeysHashAlike<V>(c: Conversions<V>, types: seq<ColumnType>, a: seq<V>, b: seq<V>)
    requires |a| == |types| && AllAgree(c, types, a, b) && Char !in types
    ensures KeyHash(c, a, types) == KeyHash(c, b, types)
  {
    hide Combine, BinaryHash, Trimmed;
    if a != [] {
      var n := |a| - 1;
      AgreeingKeysHashAlike(c, types[..n], a[..n], b[..n]);
      assert Agree(c, a[n], b[n], types[n]);
    }
  }

  /** Texts that stand for themselves, hashed by whether they are empty. */
  function Lengths(): Conversions<seq<Unit>> {
    Conversions((s: seq<Unit>) => false, (s: seq<Unit>) => 0, (s: seq<Unit>) => false, (s: seq<Unit>) => [], (s: seq<Unit>) => s,
                (u: Unit) => u == 32, (s: seq<Unit>) => if |s| == 0 then 0 else 1)
  }

  /** A factor of 31 loses nothing in 64 bits. */
  lemma CombineInjective(g: U64, h: U64, next: U64)
    requires Combine(g, next) == Combine(h, next)
    ensures g == h
  {
    var M := 0x1_0000_0000_0000_0000;
    var k := (31 * g + next) / M - (31 * h + next) / M;
    assert 31 * (g - h) == k * M;
    OddFactor(g - h, k);
  }

  lemma OddFactor(d: int, k: int)
    requires 31 * d == k * 0x1_0000_0000_0000_0000 && -31 < k < 31
    ensures d == 0
  {
    var e := d - 595056260442243600 * k;
    assert 31 * e == 16 * k;
    assert k == 31 * (2 * e - k);
  }

  /** Keys that differ in one column hash differently if that column does. */
  lemma {:induction false} OneColumnTells<V>(c: Conversions<V>, types: seq<ColumnType>, a: seq<V>, i: nat, w: V)
    requires |a| == |types| && i < |a| && ValueHash(c, a[i], types[i]) != ValueHash(c, w, types[i])
    ensures KeyHash(c, a, types) != KeyHash(c, a[i := w], types)
  {
    hide BinaryHash, Combine;
    var n := |a| - 1;
    if i < n {
      OneColumnTells(c, types[..n], a[..n], i, w);
      assert a[i := w][..n] == a[..n][i := w];
      var g, h := KeyHash(c, a[..n], types[..n]), KeyHash(c, a[..n][i := w], types[..n]);
      var last := ValueHash(c, a[n], types[n]);
      if Combine(g, last) == Combine(h, last) { CombineInjective(g, h, last); }
    } else {
      assert a[i := w][..n] == a[..n];
      LastTells(KeyHash(c, a[..n], types[..n]), ValueHash(c, a[n], types[n]), ValueHash(c, w, types[n]));
    }
  }

  lemma LastTells(h: U64, one: U64, other: U64)
    requires one != other
    ensures Combine(h, one) != Combine(h, other)
  {
  }

  /** Exactly the column lists without CHAR: a blank more does not change the order of a CHAR key but does
      change its hash. */
  lemma EqualKeysHashAlike(types: seq<ColumnType>)
    ensures HashFollows(types) <==> Char !in types
  {
    hide KeyHash;
    if Char !in types {
      forall c: Conversions<seq<Unit>>, a: seq<seq<Unit>>, b: seq<seq<Unit>> | |a| == |types| && AllAgree(c, types, a, b)
        ensures KeyHash(c, a, types) == KeyHash(c, b, types)
      {
        AgreeingKeysHashAlike(c, types, a, b);
      }
    } else {
      var i :| 0 <= i < |types| && types[i] == Char;
      var c := Lengths();
      var a: seq<seq<Unit>> := seq(|types|, _ => []);
      var b := a[i := [32]];
      assert Trimmed([32], c.isSpace) == Trimmed([], c.isSpace) == [] by { assert [32][1..] == []; }
      assert AllAgree(c, types, a, b);
      OneColumnTells(c, types, a, i, [32]);
    }
  }
}
