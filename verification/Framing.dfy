/** Big-endian numbers as they go over the wire. */
module WireNumbers {
  import opened Numbers
  import opened Powers256

  type Bytes = seq<Byte>

  function Number(s: Bytes): (n: nat)
    ensures n < Power256(|s|)
  {
    if s == [] then 0 else 256 * Number(s[..|s| - 1]) + s[|s| - 1]
  }

  function Digits(n: nat, w: nat): (s: Bytes)
    requires n < Power256(w)
    ensures |s| == w && Number(s) == n
  {
    if w == 0 then []
    else
      var high := Digits(n / 256, w - 1);
      assert (high + [n % 256])[..w - 1] == high;
      high + [n % 256]
  }

  function U32Bytes(n: nat): (s: Bytes)
    requires n < 0x1_0000_0000
    ensures |s| == 4 && Number(s) == n
  {
    Powers();
    Digits(n, 4)
  }

  function U64Bytes(n: nat): (s: Bytes)
    requires n < 0x1_0000_0000_0000_0000
    ensures |s| == 8 && Number(s) == n
  {
    Powers();
    Digits(n, 8)
  }

  function FourBytes(a: int, b: int, c: int, d: int): int {
    0x100_0000 * a + 0x1_0000 * b + 0x100 * c + d
  }

  lemma FourDigits(s: Bytes)
    requires |s| == 4
    ensures Number(s) == FourBytes(s[0], s[1], s[2], s[3])
  {
    var a, b, c := s[..3], s[..2], s[..1];
    assert a[..2] == b && b[..1] == c && c[..0] == [];
    assert Number(c) == s[0] && Number(b) == 256 * Number(c) + s[1] && Number(a) == 256 * Number(b) + s[2];
  }

  /** A 32-bit pattern read as a signed number. */
  function Signed32(n: nat): (r: int)
    requires n < 0x1_0000_0000
  {
    if n < 0x8000_0000 then n else n - 0x1_0000_0000
  }
}

/**
 * Message frames and their reassembly from a stream: a 4-byte length, a type byte, a payload.
 * The receive loop compares the buffer with a size computed in 32 bits, as the original does.
 */
module Framing {
  import opened Options
  import opened Numbers
  import opened Powers256
  import opened Sequences
  import opened WireNumbers

  datatype Message = Message(kind: Byte, payload: Bytes)

  // ---------- One frame ----------

  function EncodeMessage(m: Message): (frame: Bytes)
    requires |m.payload| + 1 < 0x1_0000_0000
    ensures |frame| == 5 + |m.payload|
  {
    U32Bytes(1 + |m.payload|) + [m.kind] + m.payload
  }

  /** The length field plus four, in 32-bit unsigned arithmetic, taken as a signed number. */
  function TotalSize(buffer: Bytes): int
    requires |buffer| >= 4
  {
    Powers();
    Signed32((4 + Number(buffer[..4])) % 0x1_0000_0000)
  }

  function DecodeMessage(data: Bytes): (r: Option<Message>) {
    if |data| < 5 then None
    else if |data| < TotalSize(data) then None
    else
      var size := Signed32((Number(data[..4]) + 0xFFFF_FFFF) % 0x1_0000_0000);
      if size > 0 then Some(Message(data[4], Raw(data, 5, size))) else Some(Message(data[4], []))
  }

  /** Up to `n` bytes from `at`; what is missing reads as zero. */
  function Raw(data: Bytes, at: nat, n: nat): (r: Bytes)
    requires at <= |data|
    ensures |r| == n
  {
    if at + n <= |data| then data[at..at + n] else data[at..] + seq(at + n - |data|, _ => 0)
  }

  /** A frame below 2^31 bytes is its own size and gives the message back, whatever follows it. */
  lemma FrameRoundTrip(m: Message, rest: Bytes)
    requires |m.payload| + 5 < 0x8000_0000
    ensures TotalSize(EncodeMessage(m) + rest) == |EncodeMessage(m)|
    ensures DecodeMessage(EncodeMessage(m) + rest) == Some(m)
  {
    var data := EncodeMessage(m) + rest;
    assert data[..4] == U32Bytes(1 + |m.payload|);
    assert data[4] == m.kind;
    assert data[5..5 + |m.payload|] == m.payload;
    assert (1 + |m.payload| + 0xFFFF_FFFF) % 0x1_0000_0000 == |m.payload|;
  }

  /** Where the parts of a frame lie: four bytes of length, highest first, that count the type byte and the
      payload; the type byte; the payload. */
  lemma FrameLayout(m: Message)
    requires |m.payload| + 1 < 0x1_0000_0000
    ensures var f := EncodeMessage(m);
            FourBytes(f[0], f[1], f[2], f[3]) == |m.payload| + 1 && f[4] == m.kind && f[5..] == m.payload
  {
    var f, n := EncodeMessage(m), |m.payload| + 1;
    assert f[..4] == U32Bytes(n) && f[5..] == m.payload;
    FourDigits(U32Bytes(n));
  }

  // ---------- The receive loop ----------

  /** The loop stops for more data, with complete frames taken off the front; or it comes to a size of
      zero or less, which takes nothing off the buffer, and goes round for ever. */
  datatype Drained = Waiting(messages: seq<Bytes>, rest: Bytes) | Stuck(messages: seq<Bytes>, rest: Bytes)

  predicate Incomplete(buffer: Bytes) {
    |buffer| < 5 || |buffer| < TotalSize(buffer)
  }

  predicate Spins(buffer: Bytes) {
    |buffer| >= 5 && TotalSize(buffer) <= 0
  }

  function Drain(buffer: Bytes): Drained
    decreases |buffer|
  {
    if Incomplete(buffer) then Waiting([], buffer)
    else if Spins(buffer) then Stuck([], buffer)
    else
      var size := TotalSize(buffer);
      var d := Drain(buffer[size..]);
      d.(messages := [buffer[..size]] + d.messages)
  }

  function Concat(parts: seq<Bytes>): Bytes {
    if parts == [] then [] else parts[0] + Concat(parts[1..])
  }

  lemma ConcatCons(first: Bytes, parts: seq<Bytes>)
    ensures Concat([first] + parts) == first + Concat(parts)
  {
    assert ([first] + parts)[1..] == parts;
  }

  /** No byte is lost, doubled or reordered; what is left is an incomplete frame. */
  lemma {:induction false} DrainConserves(buffer: Bytes)
    ensures Concat(Drain(buffer).messages) + Drain(buffer).rest == buffer
    ensures Drain(buffer).Waiting? ==> Incomplete(Drain(buffer).rest)
    decreases |buffer|
  {
    hide TotalSize;
    if !Incomplete(buffer) && !Spins(buffer) {
      var size := TotalSize(buffer);
      var d := Drain(buffer[size..]);
      DrainConserves(buffer[size..]);
      hide Concat;
      ConcatCons(buffer[..size], d.messages);
      Split(buffer, size);
      Regroup(buffer[..size], Concat(d.messages), d.rest);
    } else {
      NothingBefore(buffer);
    }
  }

  function Then(messages: seq<Bytes>, d: Drained): Drained {
    d.(messages := messages + d.messages)
  }

  lemma SameSize(buffer: Bytes, more: Bytes)
    requires |buffer| >= 4
    ensures TotalSize(buffer + more) == TotalSize(buffer)
  {
    assert (buffer + more)[..4] == buffer[..4];
  }

  /** Draining what has arrived and then the rest is draining everything at once. */
  lemma {:induction false} DrainAppend(buffer: Bytes, more: Bytes)
    ensures Drain(buffer).Waiting? ==> Drain(buffer + more) == Then(Drain(buffer).messages, Drain(Drain(buffer).rest + more))
    ensures Drain(buffer).Stuck? ==> Drain(buffer + more) == Stuck(Drain(buffer).messages, Drain(buffer).rest + more)
    decreases |buffer|
  {
    hide TotalSize;
    var all := buffer + more;
    if Incomplete(buffer) {
      NothingBefore(Drain(all).messages);
    } else {
      SameSize(buffer, more);
      if !Spins(buffer) {
        var size := TotalSize(buffer);
        assert all[..size] == buffer[..size] && all[size..] == buffer[size..] + more;
        DrainAppend(buffer[size..], more);
        var d := Drain(buffer[size..]);
        var tail := Drain(d.rest + more);
        Regroup([buffer[..size]], d.messages, tail.messages);
      }
    }
  }

  /** Reads, one after another, each drained before the next. */
  function Feed(d: Drained, chunks: seq<Bytes>): Drained
    decreases |chunks|
  {
    if chunks == [] || d.Stuck? then d
    else Feed(Then(d.messages, Drain(d.rest + chunks[0])), chunks[1..])
  }

  /** However the bytes are cut into reads, the same messages come out in the same order, the same
      bytes stay behind, and the loop gets stuck or not alike. */
  lemma {:induction false} ChunkingDoesNotMatter(d: Drained, chunks: seq<Bytes>)
    requires d.Waiting? && Incomplete(d.rest)
    ensures var all := Drain(d.rest + Concat(chunks));
            Feed(d, chunks).messages == d.messages + all.messages &&
            (all.Stuck? <==> Feed(d, chunks).Stuck?) && (all.Waiting? ==> Feed(d, chunks).rest == all.rest)
    decreases |chunks|
  {
    if chunks == [] {
      NothingAfter(d.rest);
      NothingAfter(d.messages);
    } else {
      hide Drain, TotalSize;
      var first, later := d.rest + chunks[0], Concat(chunks[1..]);
      Regroup(d.rest, chunks[0], later);
      DrainAppend(first, later);
      DrainConserves(first);
      var now := Drain(first);
      if now.Waiting? {
        ChunkingDoesNotMatter(Then(d.messages, now), chunks[1..]);
        var tail := Drain(now.rest + later);
        Regroup(d.messages, now.messages, tail.messages);
      }
    }
  }

  // ---------- A stream of encoded messages ----------

  ghost predicate Sendable(ms: seq<Message>) {
    forall i :: 0 <= i < |ms| ==> |ms[i].payload| + 5 < 0x8000_0000
  }

  function Frames(ms: seq<Message>): (fs: seq<Bytes>)
    requires Sendable(ms)
    ensures |fs| == |ms|
    ensures forall i :: 0 <= i < |ms| ==> fs[i] == EncodeMessage(ms[i])
  {
    if ms == [] then [] else [EncodeMessage(ms[0])] + Frames(ms[1..])
  }

  /** Frames followed by an incomplete frame: exactly the frames come off, the rest waits. */
  lemma {:induction false} FramesComeOff(ms: seq<Message>, tail: Bytes)
    requires Sendable(ms) && Incomplete(tail)
    ensures Drain(Concat(Frames(ms)) + tail) == Waiting(Frames(ms), tail)
  {
    if ms == [] {
      NothingBefore(tail);
    } else {
      var frame, later := EncodeMessage(ms[0]), Concat(Frames(ms[1..])) + tail;
      var all := Concat(Frames(ms)) + tail;
      assert Frames(ms)[1..] == Frames(ms[1..]);
      assert all == frame + later;
      FrameRoundTrip(ms[0], later);
      FramesComeOff(ms[1..], tail);
      FirstFrame(frame, later, ms[1..], tail);
    }
  }

  lemma FirstFrame(frame: Bytes, later: Bytes, ms: seq<Message>, tail: Bytes)
    requires |frame| >= 5 && TotalSize(frame + later) == |frame| && Sendable(ms)
    requires Drain(later) == Waiting(Frames(ms), tail)
    ensures Drain(frame + later) == Waiting([frame] + Frames(ms), tail)
  {
    hide TotalSize;
    var all := frame + later;
    assert all[..|frame|] == frame && all[|frame|..] == later;
  }

  /** The bytes of a message sequence, cut anywhere, are received as that sequence of messages. */
  lemma StreamDelivers(ms: seq<Message>, tail: Bytes, chunks: seq<Bytes>)
    requires Sendable(ms) && Incomplete(tail) && Concat(chunks) == Concat(Frames(ms)) + tail
    ensures Feed(Waiting([], []), chunks) == Waiting(Frames(ms), tail)
    ensures forall i :: 0 <= i < |ms| ==> DecodeMessage(Frames(ms)[i]) == Some(ms[i])
  {
    hide Drain, TotalSize, DecodeMessage;
    FramesComeOff(ms, tail);
    ChunkingDoesNotMatter(Waiting([], []), chunks);
    NothingBefore(Concat(chunks));
    NothingBefore(Frames(ms));
    forall i | 0 <= i < |ms| ensures DecodeMessage(Frames(ms)[i]) == Some(ms[i]) {
      FrameRoundTrip(ms[i], []);
      NothingAfter(EncodeMessage(ms[i]));
    }
  }

  /** A proper prefix of a frame is incomplete, so between frames nothing but such a prefix waits. */
  lemma PrefixWaits(m: Message, k: nat)
    requires |m.payload| + 5 < 0x8000_0000 && k < |EncodeMessage(m)|
    ensures Incomplete(EncodeMessage(m)[..k])
  {
    var frame := EncodeMessage(m);
    if k >= 5 {
      FrameRoundTrip(m, []);
      NothingAfter(frame);
      assert frame == frame[..k] + frame[k..];
      SameSize(frame[..k], frame[k..]);
    }
  }

  /** The loop goes round for ever on exactly the length fields 2^31 - 4 to 2^32 - 4. */
  lemma SpinsExactly(buffer: Bytes)
    requires |buffer| >= 5
    ensures Spins(buffer) <==> 0x7FFF_FFFC <= Number(buffer[..4]) <= 0xFFFF_FFFC
  {
    Powers();
    var n := Number(buffer[..4]);
    if n >= 0xFFFF_FFFC {
      assert (4 + n) % 0x1_0000_0000 == 4 + n - 0x1_0000_0000;
    } else {
      assert (4 + n) % 0x1_0000_0000 == 4 + n;
    }
  }

  /** The receiving end of a connection. */
  class Receiver {
    var receiveBuffer: Bytes
    var handled: seq<Bytes>

    constructor ()
      ensures receiveBuffer == [] && handled == []
    {
      receiveBuffer, handled := [], [];
    }

    /** One read: append what arrived, then take complete frames off the front. */
    method OnReadyRead(chunk: Bytes)
      requires Drain(receiveBuffer + chunk).Waiting?
      modifies this
      ensures Waiting(handled, receiveBuffer) == Feed(Waiting(old(handled), old(receiveBuffer)), [chunk])
      ensures Incomplete(receiveBuffer) && Concat(handled) + receiveBuffer == Concat(old(handled)) + (old(receiveBuffer) + chunk)
    {
      hide TotalSize, Concat;
      receiveBuffer := receiveBuffer + chunk;
      ghost var all := receiveBuffer;
      ghost var drained: seq<Bytes> := [];
      NothingBefore(Drain(all).messages);
      NothingAfter(handled);
      while |receiveBuffer| >= 5
        invariant Drain(receiveBuffer).Waiting?
        invariant handled == old(handled) + drained
        invariant Drain(all) == Then(drained, Drain(receiveBuffer))
        decreases |receiveBuffer|
      {
        var totalSize := TotalSize(receiveBuffer);
        if |receiveBuffer| < totalSize {
          break;
        }
        ghost var d := Drain(receiveBuffer);
        var message := receiveBuffer[..totalSize];
        receiveBuffer := receiveBuffer[totalSize..];
        handled := handled + [message];
        assert d == Then([message], Drain(receiveBuffer));
        Regroup(drained, [message], Drain(receiveBuffer).messages);
        Regroup(old(handled), drained, [message]);
        drained := drained + [message];
      }
      assert Drain(receiveBuffer) == Waiting([], receiveBuffer);
      NothingAfter(drained);
      DrainConserves(all);
      ConcatAppend(old(handled), drained);
      Regroup(Concat(old(handled)), Concat(drained), receiveBuffer);
      assert [chunk][1..] == [];
    }
  }

  lemma {:induction false} ConcatAppend(a: seq<Bytes>, b: seq<Bytes>)
    ensures Concat(a + b) == Concat(a) + Concat(b)
  {
    if a == [] {
      assert a + b == b;
    } else {
      assert (a + b)[1..] == a[1..] + b;
      ConcatAppend(a[1..], b);
    }
  }
}
