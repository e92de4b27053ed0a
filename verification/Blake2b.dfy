/**
 * BLAKE2b with its input arriving in pieces.  The compression function and the parameter block are
 * given functions; what is modelled is the buffering, the two-word byte counter, the padding of
 * the last block and the output, against the one-shot description in section 3.3 of RFC 7693.
 */
module Blake2b {
  import opened Numbers
  import opened Powers256

  type Word = U64
  type State = s: seq<Word> | |s| == 8 witness [0, 0, 0, 0, 0, 0, 0, 0]

  const BLOCK := 128

  /** Compresses one 128-byte block, given the byte counter's low and high word and the last-block flag. */
  type Compress = (State, seq<Byte>, Word, Word, bool) -> State

  function Low(n: nat): Word {
    n % TWO64
  }

  function High(n: nat): Word {
    n / TWO64 % TWO64
  }

  // ---------- One-shot: section 3.3 of RFC 7693 ----------

  /** At least one block, and as many as the data needs. */
  function BlockCount(length: nat): nat {
    if length == 0 then 1 else (length + BLOCK - 1) / BLOCK
  }

  function Padded(data: seq<Byte>): (r: seq<Byte>)
    ensures |r| == BLOCK * BlockCount(|data|)
  {
    data + Zeros(BLOCK * BlockCount(|data|) - |data|)
  }

  /** The state after the first `n` blocks, none of them the last one. */
  function Chain(F: Compress, h: State, data: seq<Byte>, n: nat): State
    requires BLOCK * n <= |data|
  {
    if n == 0 then h
    else F(Chain(F, h, data, n - 1), data[BLOCK * (n - 1)..BLOCK * n], Low(BLOCK * n), High(BLOCK * n), false)
  }

  function OneShot(F: Compress, h: State, data: seq<Byte>): State {
    var padded, last := Padded(data), BlockCount(|data|) - 1;
    F(Chain(F, h, padded, last), padded[BLOCK * last..BLOCK * last + BLOCK], Low(|data|), High(|data|), true)
  }

  /** Byte `i` of the state, its words taken little-endian. */
  function StateByte(h: State, i: nat): Byte
    requires i < 64
  {
    h[i / 8] / Power256(i % 8) % 256
  }

  function Digest(h: State, n: nat): (r: seq<Byte>)
    requires n <= 64
    ensures |r| == n
  {
    seq(n, i requires 0 <= i < n => StateByte(h, i))
  }

  /** Bytes 8 i to 8 i + 7 of the digest spell word `i`, the lowest byte first. */
  lemma DigestWord(h: State, i: nat)
    requires i < 8
    ensures LittleEndian(Digest(h, 64)[8 * i..8 * i + 8]) == h[i]
  {
    Powers();
    var s := Digest(h, 64)[8 * i..8 * i + 8];
    forall k | 0 <= k < 8 ensures s[k] == h[i] / Power256(k) % 256 {
      assert s[k] == StateByte(h, 8 * i + k) && (8 * i + k) / 8 == i && (8 * i + k) % 8 == k;
    }
    DigitsSpell(s, h[i]);
  }

  /** A shorter digest is the start of the longer one. */
  lemma DigestPrefix(h: State, n: nat)
    requires n <= 64
    ensures Digest(h, n) == Digest(h, 64)[..n]
  {
  }

  // ---------- Lemmas ----------

  /** The two-word counter with its carry counts bytes modulo 2^128. */
  lemma CounterAdd(n: nat, k: nat)
    requires k <= BLOCK
    ensures var t0 := (Low(n) + k) % TWO64;
            t0 == Low(n + k) && (High(n) + if t0 < k then 1 else 0) % TWO64 == High(n + k)
  {
    var q, r := n / TWO64, n % TWO64;
    assert n == q * TWO64 + r;
    if r + k < TWO64 {
      Divides(n + k, q, r + k);
    } else {
      Divides(n + k, q + 1, r + k - TWO64);
      Increment(q);
    }
  }

  lemma Divides(n: nat, q: nat, r: nat)
    requires n == q * TWO64 + r && r < TWO64
    ensures n / TWO64 == q && n % TWO64 == r
  {
  }

  lemma Increment(q: nat)
    ensures (q % TWO64 + 1) % TWO64 == (q + 1) % TWO64
  {
    var a, b := q / TWO64, q % TWO64;
    if b + 1 < TWO64 {
      Divides(q + 1, a, b + 1);
    } else {
      Divides(q + 1, a + 1, 0);
    }
  }

  lemma {:induction false} ChainOfPrefix(F: Compress, h: State, a: seq<Byte>, b: seq<Byte>, n: nat)
    requires BLOCK * n <= |a| && BLOCK * n <= |b| && a[..BLOCK * n] == b[..BLOCK * n]
    ensures Chain(F, h, a, n) == Chain(F, h, b, n)
  {
    if n > 0 {
      var m := BLOCK * (n - 1);
      assert a[..m] == a[..BLOCK * n][..m] && b[..m] == b[..BLOCK * n][..m];
      ChainOfPrefix(F, h, a, b, n - 1);
      assert a[m..BLOCK * n] == a[..BLOCK * n][m..] && b[m..BLOCK * n] == b[..BLOCK * n][m..];
    }
  }

  /** The blocks not yet compressed are the last one, as the one-shot computation cuts them. */
  lemma LastBlock(F: Compress, h: State, fed: seq<Byte>, n: nat, left: nat)
    requires BLOCK * n + left == |fed| && left <= BLOCK && (n > 0 ==> left > 0)
    ensures BlockCount(|fed|) == n + 1
    ensures OneShot(F, h, fed) == F(Chain(F, h, fed, n), fed[BLOCK * n..] + Zeros(BLOCK - left), Low(|fed|), High(|fed|), true)
  {
    var padded := Padded(fed);
    ChainOfPrefix(F, h, padded, fed, n);
    assert padded[BLOCK * n..BLOCK * n + BLOCK] == fed[BLOCK * n..] + Zeros(BLOCK - left);
  }

  lemma SameSlice(all: seq<Byte>, input: seq<Byte>, at: nat)
    requires |input| <= |all| && all[|all| - |input|..] == input && at + BLOCK <= |input|
    ensures input[at..at + BLOCK] == all[|all| - |input| + at..|all| - |input| + at + BLOCK]
  {
  }

  lemma FirstSlice(fed: seq<Byte>, input: seq<Byte>, n: nat, left: nat)
    requires BLOCK * n + left == |fed| && left <= BLOCK && BLOCK - left <= |input|
    ensures fed[BLOCK * n..] + input[..BLOCK - left] == (fed + input)[BLOCK * n..BLOCK * (n + 1)]
  {
  }

  lemma LastSlice(all: seq<Byte>, input: seq<Byte>, at: nat)
    requires |input| <= |all| && all[|all| - |input|..] == input && at <= |input|
    ensures [] + input[at..] == all[|all| - |input| + at..]
  {
  }

  class Context {
    var h: State
    var t0: Word
    var t1: Word
    var lastFlag: bool
    const buf: array<Byte>
    var buflen: nat
    const outlen: nat
    const F: Compress
    ghost const h0: State
    ghost var fed: seq<Byte>
    ghost var blocks: nat

    /** The buffer holds the tail of the input, and never nothing after a block was compressed. */
    ghost predicate Valid()
      reads this, buf
    {
      buf.Length == BLOCK && buflen <= BLOCK && !lastFlag &&
      BLOCK * blocks + buflen == |fed| && (blocks > 0 ==> buflen > 0) &&
      buf[..buflen] == fed[BLOCK * blocks..] &&
      h == Chain(F, h0, fed, blocks) && t0 == Low(BLOCK * blocks) && t1 == High(BLOCK * blocks)
    }

    /** `start` stands for the initialisation vector with the parameter block of this output and key
        length mixed in. */
    constructor (F: Compress, start: State, outlen: nat)
      requires outlen <= 64
      ensures Valid() && fed == [] && h0 == start && this.F == F && this.outlen == outlen && fresh(buf)
    {
      this.F, h0, h := F, start, start;
      this.outlen := outlen;
      t0, t1, lastFlag, buflen := 0, 0, false, 0;
      fed, blocks := [], 0;
      buf := new Byte[BLOCK](_ => 0);
    }

    /** Adds to the byte counter, carrying into the high word. */
    method Count(k: nat, ghost n: nat)
      requires k <= BLOCK && t0 == Low(n) && t1 == High(n)
      modifies this`t0, this`t1
      ensures t0 == Low(n + k) && t1 == High(n + k)
    {
      CounterAdd(n, k);
      hide Low, High;
      t0 := (t0 + k) % TWO64;
      if t0 < k {
        t1 := (t1 + 1) % TWO64;
      }
    }

    /** Counts a block and compresses it. */
    method CompressBlock(block: seq<Byte>, ghost all: seq<Byte>)
      requires BLOCK * (blocks + 1) <= |all| && block == all[BLOCK * blocks..BLOCK * (blocks + 1)] && !lastFlag
      requires h == Chain(F, h0, all, blocks) && t0 == Low(BLOCK * blocks) && t1 == High(BLOCK * blocks)
      modifies this`h, this`t0, this`t1, this`blocks
      ensures blocks == old(blocks) + 1
      ensures h == Chain(F, h0, all, blocks) && t0 == Low(BLOCK * blocks) && t1 == High(BLOCK * blocks)
    {
      hide Low, High;
      Count(BLOCK, BLOCK * blocks);
      h := F(h, block, t0, t1, lastFlag);
      blocks := blocks + 1;
    }

    /** What holds between blocks while `all` is taken in: `rest` bytes of it are still to come. */
    ghost predicate Absorbing(all: seq<Byte>, rest: nat)
      reads this
    {
      !lastFlag && BLOCK * blocks + rest == |all| &&
      h == Chain(F, h0, all, blocks) && t0 == Low(BLOCK * blocks) && t1 == High(BLOCK * blocks)
    }

    /** Compresses full blocks straight from the input, as long as more than one block is left. */
    method CompressFull(input: seq<Byte>, from: nat, ghost all: seq<Byte>) returns (at: nat)
      requires from < |input| && |input| <= |all| && all[|all| - |input|..] == input && Absorbing(all, |input| - from)
      modifies this`h, this`t0, this`t1, this`blocks
      ensures from <= at < |input| && |input| - at <= BLOCK && Absorbing(all, |input| - at) && blocks >= old(blocks)
    {
      hide Low, High, Chain;
      at := from;
      while |input| - at > BLOCK
        invariant from <= at < |input| && Absorbing(all, |input| - at) && blocks >= old(blocks)
      {
        SameSlice(all, input, at);
        CompressBlock(input[at..at + BLOCK], all);
        at := at + BLOCK;
      }
    }

    /** Completes the buffered block and compresses it. */
    method FillBuffer(part: seq<Byte>, ghost all: seq<Byte>, ghost rest: nat)
      requires buf.Length == BLOCK && buflen + |part| == BLOCK && Absorbing(all, rest) && BLOCK <= rest
      requires buf[..buflen] + part == all[BLOCK * blocks..BLOCK * (blocks + 1)]
      modifies this, buf
      ensures Absorbing(all, rest - BLOCK) && buflen == 0 && blocks == old(blocks) + 1 && fed == old(fed)
    {
      hide Low, High, Chain;
      CopyInto(buflen, part);
      buflen := 0;
      assert buf[..] == buf[..BLOCK];
      CompressBlock(buf[..], all);
    }

    /** Keeps the rest of the input, at most one block. */
    method Store(bytes: seq<Byte>, ghost all: seq<Byte>)
      requires buf.Length == BLOCK && 0 < buflen + |bytes| <= BLOCK && Absorbing(all, buflen + |bytes|)
      requires buf[..buflen] + bytes == all[BLOCK * blocks..]
      modifies this, buf
      ensures Valid() && fed == all
    {
      hide Low, High, Chain;
      CopyInto(buflen, bytes);
      buflen := buflen + |bytes|;
      fed := all;
    }

    /** Takes in more input; the last block stays in the buffer. */
    method Update(input: seq<Byte>)
      requires Valid()
      modifies this, buf
      ensures Valid() && fed == old(fed) + input
    {
      hide Low, High, Chain;
      if |input| == 0 {
        return;
      }
      ghost var all := fed + input;
      ChainOfPrefix(F, h0, fed, all, blocks);
      var fill := BLOCK - buflen;
      var at := 0;
      if |input| > fill {
        FirstSlice(fed, input, blocks, buflen);
        FillBuffer(input[..fill], all, buflen + |input|);
        at := CompressFull(input, fill, all);
        LastSlice(all, input, at);
      } else {
        assert fed[BLOCK * blocks..] + input[0..] == all[BLOCK * blocks..];
      }
      Store(input[at..], all);
    }

    method CopyInto(at: nat, bytes: seq<Byte>)
      requires buf.Length == BLOCK && at + |bytes| <= BLOCK
      modifies buf
      ensures buf[..at] == old(buf[..at]) && buf[at..at + |bytes|] == bytes
      ensures buf[..at + |bytes|] == old(buf[..at]) + bytes
    {
      forall i | 0 <= i < |bytes| {
        buf[at + i] := bytes[i];
      }
    }

    /** The digest of everything fed, as the one-shot computation has it. */
    method Final() returns (out: seq<Byte>)
      requires Valid() && outlen <= 64
      modifies this, buf
      ensures out == Digest(OneShot(F, h0, fed), outlen) && fed == old(fed)
    {
      hide Low, High, Chain, OneShot, Digest, Zeros;
      LastBlock(F, h0, fed, blocks, buflen);
      Count(buflen, BLOCK * blocks);
      lastFlag := true;
      CopyInto(buflen, Zeros(BLOCK - buflen));
      assert buf[..] == fed[BLOCK * blocks..] + Zeros(BLOCK - buflen);
      h := F(h, buf[..], t0, t1, lastFlag);
      out := Output(h, outlen);
    }
  }

  method Output(h: State, n: nat) returns (out: seq<Byte>)
    requires n <= 64
    ensures out == Digest(h, n)
  {
    hide StateByte;
    out := [];
    var i := 0;
    while i < n
      invariant i <= n && |out| == i
      invariant forall j :: 0 <= j < i ==> out[j] == StateByte(h, j)
    {
      out := out + [StateByte(h, i)];
      i := i + 1;
    }
  }

  // ---------- Whole computations ----------

  function Concat(parts: seq<seq<Byte>>): seq<Byte> {
    if parts == [] then [] else Concat(parts[..|parts| - 1]) + parts[|parts| - 1]
  }

  /** However a message is cut into updates, the digest is that of the whole message. */
  method HashPieces(F: Compress, start: State, pieces: seq<seq<Byte>>, outlen: nat) returns (out: seq<Byte>)
    requires outlen <= 64
    ensures out == Digest(OneShot(F, start, Concat(pieces)), outlen)
  {
    hide OneShot, Digest;
    var ctx := new Context(F, start, outlen);
    var i := 0;
    while i < |pieces|
      invariant i <= |pieces| && ctx.Valid() && fresh(ctx) && fresh(ctx.buf)
      invariant ctx.fed == Concat(pieces[..i])
    {
      assert pieces[..i + 1][..i] == pieces[..i];
      ctx.Update(pieces[i]);
      i := i + 1;
    }
    assert pieces[..i] == pieces;
    out := ctx.Final();
  }

  /** A key is a first block of its own, padded with zeros; the counter includes it. */
  method HashWithKey(F: Compress, start: State, key: seq<Byte>, data: seq<Byte>, outlen: nat) returns (out: seq<Byte>)
    requires outlen <= 64 && |key| <= BLOCK
    ensures out == Digest(OneShot(F, start, if key == [] then data else key + Zeros(BLOCK - |key|) + data), outlen)
  {
    hide OneShot, Digest;
    var ctx := new Context(F, start, outlen);
    if |key| > 0 {
      ctx.Update(key + Zeros(BLOCK - |key|));
    }
    ctx.Update(data);
    assert [] + data == data;
    out := ctx.Final();
  }

  // ---------- Long outputs ----------

  function Hash(F: Compress, start: nat -> State, data: seq<Byte>, outlen: nat): (r: seq<Byte>)
    requires outlen <= 64
    ensures |r| == outlen
  {
    Digest(OneShot(F, start(outlen), data), outlen)
  }

  function Le32(n: nat): seq<Byte>
    requires n < 0x1_0000_0000
  {
    [n % 0x100, n / 0x100 % 0x100, n / 0x1_0000 % 0x100, n / 0x100_0000]
  }

  /** The length prefix spells the length, the lowest byte first. */
  lemma Le32Spells(n: nat)
    requires n < 0x1_0000_0000
    ensures |Le32(n)| == 4 && LittleEndian(Le32(n)) == n
  {
    Powers();
    var s := Le32(n);
    assert Power256(2) == 0x1_0000 && Power256(3) == 0x100_0000;
    forall k | 0 <= k < 4 ensures s[k] == n / Power256(k) % 256 {
    }
    DigitsSpell(s, n);
  }

  /** V_i of the variable-length hash in section 3.3 of RFC 9106. */
  function V(F: Compress, start: nat -> State, seed: seq<Byte>, i: nat): (r: seq<Byte>)
    requires i >= 1
    ensures |r| == 64
  {
    if i == 1 then Hash(F, start, seed, 64) else Hash(F, start, V(F, start, seed, i - 1), 64)
  }

  /** The first halves of V_1 to V_r. */
  function Halves(F: Compress, start: nat -> State, seed: seq<Byte>, r: nat): (s: seq<Byte>)
    ensures |s| == 32 * r
  {
    if r == 0 then [] else Halves(F, start, seed, r - 1) + V(F, start, seed, r)[..32]
  }

  /** The variable-length hash for more than 64 bytes, in the words of section 3.3 of RFC 9106. */
  function LongHash(F: Compress, start: nat -> State, input: seq<Byte>, outlen: nat): (s: seq<Byte>)
    requires 64 < outlen < 0x1_0000_0000
    ensures |s| == outlen
  {
    var seed, r := Le32(outlen) + input, (outlen + 31) / 32 - 2;
    Halves(F, start, seed, r) + Hash(F, start, V(F, start, seed, r), outlen - 32 * r)
  }

  /** Up to 64 bytes it is a plain hash, without the length in front; beyond, it is `LongHash`. */
  method Blake2bLong(F: Compress, start: nat -> State, input: seq<Byte>, outlen: nat) returns (result: seq<Byte>)
    requires outlen < 0x1_0000_0000
    ensures |result| == outlen
    ensures result == if outlen <= 64 then Hash(F, start, input, outlen) else LongHash(F, start, input, outlen)
  {
    hide Digest, OneShot, Le32;
    if outlen <= 64 {
      result := HashOnce(F, start, input, outlen);
      return;
    }
    ghost var seed := Le32(outlen) + input;
    var outBuffer := HashOnce(F, start, Le32(outlen) + input, 64);
    result := outBuffer[..32];
    var remaining := outlen - 32;
    ghost var r := 1;
    assert Halves(F, start, seed, 0) == [];
    assert [] + outBuffer[..32] == outBuffer[..32];
    assert Halves(F, start, seed, 1) == Halves(F, start, seed, 0) + V(F, start, seed, 1)[..32];
    while remaining > 64
      invariant 32 < remaining == outlen - 32 * r && r >= 1
      invariant outBuffer == V(F, start, seed, r) && result == Halves(F, start, seed, r)
    {
      outBuffer := HashOnce(F, start, outBuffer, 64);
      result := result + outBuffer[..32];
      remaining := remaining - 32;
      r := r + 1;
    }
    outBuffer := HashOnce(F, start, outBuffer, remaining);
    result := result + outBuffer;
  }

  method HashOnce(F: Compress, start: nat -> State, data: seq<Byte>, outlen: nat) returns (out: seq<Byte>)
    requires outlen <= 64
    ensures out == Hash(F, start, data, outlen)
  {
    hide Digest, OneShot;
    var ctx := new Context(F, start(outlen), outlen);
    ctx.Update(data);
    assert [] + data == data;
    out := ctx.Final();
  }
}
