/**
 Wire framing: messages of a 24-byte header and a body whose size the header gives. The
 receiver is fed whatever chunks the socket delivers; it is proved against an automaton that
 takes one byte at a time.
 */
module Framing {
  import opened Common

  const HEADER_SIZE: nat := 24
  const MESSAGE_SIZE_OFFSET: nat := 16
  const MAX_SIZE: nat := 0x0200_0000

  // ---------- the automaton ----------

  /** What has been received of a message. */
  datatype Msg = Msg(header: seq<Byte>, inData: bool, data: seq<Byte>) {
    predicate Complete() {
      inData && |header| == HEADER_SIZE && |data| == SizeIn(header)
    }
  }

  const NEW_MSG := Msg([], false, [])

  /** The body size a header announces, least significant byte first. */
  function SizeIn(header: seq<Byte>): nat
    requires |header| == HEADER_SIZE
  {
    var b0: nat, b1: nat, b2: nat, b3: nat := header[16], header[17], header[18], header[19];
    b0 + 0x100 * b1 + 0x1_0000 * b2 + 0x100_0000 * b3
  }

  /** The messages so far, and whether the last header was acceptable. */
  datatype Received = Received(msgs: seq<Msg>, ok: bool)

  function Open(msgs: seq<Msg>): (r: seq<Msg>)
    ensures r != [] && !r[|r| - 1].Complete()
  {
    if msgs == [] || msgs[|msgs| - 1].Complete() then msgs + [NEW_MSG] else msgs
  }

  /** One byte more of an incomplete message; false for a header that announces too much. */
  function Absorb(m: Msg, b: Byte): (Msg, bool) {
    if m.inData then
      (m.(data := m.data + [b]), true)
    else
      var header := m.header + [b];
      if |header| < HEADER_SIZE then (m.(header := header), true)
      else if |header| == HEADER_SIZE && SizeIn(header) <= MAX_SIZE then (Msg(header, true, m.data), true)
      else (m.(header := header), false)
  }

  function FeedByte(r: Received, b: Byte): Received {
    if !r.ok then
      r
    else
      var msgs := Open(r.msgs);
      var (m, ok) := Absorb(msgs[|msgs| - 1], b);
      Received(msgs[..|msgs| - 1] + [m], ok)
  }

  function Feed(r: Received, bytes: seq<Byte>): Received
    decreases |bytes|
  {
    if bytes == [] then r else Feed(FeedByte(r, bytes[0]), bytes[1..])
  }

  /** Cutting the bytes in two makes no difference. */
  lemma {:induction false} FeedChunks(r: Received, a: seq<Byte>, b: seq<Byte>)
    ensures Feed(r, a + b) == Feed(Feed(r, a), b)
    decreases |a|
  {
    if a == [] {
      assert a + b == b;
    } else {
      assert (a + b)[1..] == a[1..] + b;
      FeedChunks(FeedByte(r, a[0]), a[1..], b);
    }
  }

  function Concat(chunks: seq<seq<Byte>>): seq<Byte> {
    if chunks == [] then [] else chunks[0] + Concat(chunks[1..])
  }

  function FeedEach(r: Received, chunks: seq<seq<Byte>>): Received
    decreases |chunks|
  {
    if chunks == [] then r else FeedEach(Feed(r, chunks[0]), chunks[1..])
  }

  /** However the bytes are cut, feeding chunk by chunk is feeding them all at once. */
  lemma {:induction false} FeedInAnyChunks(r: Received, chunks: seq<seq<Byte>>)
    ensures FeedEach(r, chunks) == Feed(r, Concat(chunks))
    decreases |chunks|
  {
    if chunks != [] {
      FeedInAnyChunks(Feed(r, chunks[0]), chunks[1..]);
      FeedChunks(r, chunks[0], Concat(chunks[1..]));
    }
  }

  lemma {:induction false} FeedFailed(r: Received, bytes: seq<Byte>)
    requires !r.ok
    ensures Feed(r, bytes) == r
    decreases |bytes|
  {
    if bytes != [] {
      FeedFailed(r, bytes[1..]);
    }
  }

  // ---------- what the automaton keeps ----------

  /** A message within its bounds: a header being filled, or a body being filled after an acceptable header. */
  predicate WellFormed(m: Msg) {
    && |m.header| <= HEADER_SIZE
    && (m.inData ==> |m.header| == HEADER_SIZE && |m.data| <= SizeIn(m.header) <= MAX_SIZE)
    && (!m.inData ==> |m.header| < HEADER_SIZE && m.data == [])
  }

  /** Only the last message may be incomplete. */
  ghost predicate Sound(msgs: seq<Msg>) {
    && (forall i :: 0 <= i < |msgs| ==> WellFormed(msgs[i]))
    && (forall i :: 0 <= i < |msgs| - 1 ==> msgs[i].Complete())
  }

  /** The bytes that went into some messages. */
  function Bytes(msgs: seq<Msg>): seq<Byte> {
    if msgs == [] then [] else Bytes(msgs[..|msgs| - 1]) + msgs[|msgs| - 1].header + msgs[|msgs| - 1].data
  }

  lemma OpenKeeps(msgs: seq<Msg>)
    requires Sound(msgs)
    ensures Sound(Open(msgs)) && Bytes(Open(msgs)) == Bytes(msgs)
  {
    var longer := Open(msgs);
    if longer != msgs {
      assert longer[..|longer| - 1] == msgs;
      assert Bytes(longer) == Bytes(msgs) + [] + [];
    }
  }

  lemma FeedByteKeeps(r: Received, b: Byte)
    requires Sound(r.msgs) && r.ok && FeedByte(r, b).ok
    ensures Sound(FeedByte(r, b).msgs) && Bytes(FeedByte(r, b).msgs) == Bytes(r.msgs) + [b]
  {
    OpenKeeps(r.msgs);
    var msgs := Open(r.msgs);
    var k := |msgs| - 1;
    var fed := FeedByte(r, b).msgs;
    assert fed[..k] == msgs[..k];
  }

  /**
   As long as headers are acceptable, no byte is lost, added or moved: the messages are made
   of exactly the bytes fed, and all but the last are complete.
   */
  lemma {:induction false} FeedKeeps(r: Received, bytes: seq<Byte>)
    requires Sound(r.msgs) && r.ok && Feed(r, bytes).ok
    ensures Sound(Feed(r, bytes).msgs) && Bytes(Feed(r, bytes).msgs) == Bytes(r.msgs) + bytes
    decreases |bytes|
  {
    hide FeedByte, Sound, Bytes;
    if bytes == [] {
      assert Bytes(r.msgs) + bytes == Bytes(r.msgs);
    } else {
      var r' := FeedByte(r, bytes[0]);
      if !r'.ok {
        FeedFailed(r', bytes[1..]);
      }
      FeedByteKeeps(r, bytes[0]);
      FeedKeeps(r', bytes[1..]);
      assert [bytes[0]] + bytes[1..] == bytes;
    }
  }

  // ---------- messages survive the wire ----------

  ghost predicate AllComplete(msgs: seq<Msg>) {
    forall i :: 0 <= i < |msgs| ==> WellFormed(msgs[i]) && msgs[i].Complete()
  }

  /** What becomes of a message and a piece of its header. */
  function HeaderFed(front: seq<Msg>, header: seq<Byte>): Received
    requires |header| <= HEADER_SIZE
  {
    var ok := |header| < HEADER_SIZE || SizeIn(header) <= MAX_SIZE;
    Received(front + [Msg(header, |header| == HEADER_SIZE && ok, [])], ok)
  }

  lemma {:induction false} FeedInHeader(front: seq<Msg>, header: seq<Byte>, chunk: seq<Byte>)
    requires |header| < HEADER_SIZE && 0 < |chunk| <= HEADER_SIZE - |header|
    ensures Feed(Received(front + [Msg(header, false, [])], true), chunk) == HeaderFed(front, header + chunk)
    decreases |chunk|
  {
    hide SizeIn;
    var r := Received(front + [Msg(header, false, [])], true);
    assert r.msgs[..|front|] == front;
    assert FeedByte(r, chunk[0]) == HeaderFed(front, header + [chunk[0]]);
    if |chunk| == 1 {
      FeedOne(r, chunk[0]);
      assert chunk == [chunk[0]];
    } else {
      FeedInHeader(front, header + [chunk[0]], chunk[1..]);
      assert header + [chunk[0]] + chunk[1..] == header + chunk;
    }
  }

  lemma {:induction false} FeedInData(front: seq<Msg>, m: Msg, chunk: seq<Byte>)
    requires WellFormed(m) && m.inData && |chunk| <= SizeIn(m.header) - |m.data|
    ensures Feed(Received(front + [m], true), chunk) == Received(front + [m.(data := m.data + chunk)], true)
    decreases |chunk|
  {
    hide SizeIn;
    var r := Received(front + [m], true);
    if chunk == [] {
      assert m.data + chunk == m.data;
    } else {
      assert r.msgs[..|front|] == front;
      var m' := m.(data := m.data + [chunk[0]]);
      assert FeedByte(r, chunk[0]) == Received(front + [m'], true);
      FeedInData(front, m', chunk[1..]);
      assert m.data + [chunk[0]] + chunk[1..] == m.data + chunk;
    }
  }

  lemma FeedOne(r: Received, b: Byte)
    ensures Feed(r, [b]) == FeedByte(r, b)
  {
    assert [b][1..] == [];
  }

  /** A message is begun when its first byte arrives. */
  lemma FeedOpens(msgs: seq<Msg>, bytes: seq<Byte>)
    requires bytes != []
    ensures Feed(Received(msgs, true), bytes) == Feed(Received(Open(msgs), true), bytes)
  {
    assert Open(Open(msgs)) == Open(msgs);
  }

  lemma FeedFrame(before: seq<Msg>, m: Msg)
    requires AllComplete(before) && WellFormed(m) && m.Complete()
    ensures Feed(Received(before, true), m.header + m.data) == Received(before + [m], true)
  {
    hide Feed, SizeIn;
    FeedChunks(Received(before, true), m.header, m.data);
    FeedOpens(before, m.header);
    FeedInHeader(before, [], m.header);
    assert [] + m.header == m.header && [] + m.data == m.data;
    FeedInData(before, m.(data := []), m.data);
  }

  /** Any messages, put on the wire one after the other, are what the receiver makes of the bytes. */
  lemma {:induction false} FeedMessages(before: seq<Msg>, msgs: seq<Msg>)
    requires AllComplete(before) && AllComplete(msgs)
    ensures Feed(Received(before, true), Bytes(msgs)) == Received(before + msgs, true)
    decreases |msgs|
  {
    hide FeedByte, WellFormed;
    if msgs == [] {
      assert before + msgs == before;
    } else {
      var front, m := msgs[..|msgs| - 1], msgs[|msgs| - 1];
      FeedMessages(before, front);
      assert Bytes(msgs) == Bytes(front) + (m.header + m.data);
      FeedChunks(Received(before, true), Bytes(front), m.header + m.data);
      FeedFrame(before + front, m);
      assert before + front + [m] == before + msgs;
    }
  }

  // ---------- the receiver ----------

  /** A message being received, with buffers of fixed size and the positions filled so far. */
  class NetMessage {
    var inData: bool
    var hdrbuf: seq<Byte>
    var hdrPos: nat
    var size: nat
    var recv: seq<Byte>
    var dataPos: nat

    ghost predicate Valid()
      reads this
    {
      && |hdrbuf| == HEADER_SIZE && hdrPos <= HEADER_SIZE
      && (if inData then hdrPos == HEADER_SIZE && size == SizeIn(hdrbuf) == |recv| <= MAX_SIZE && dataPos <= size
          else hdrPos < HEADER_SIZE && dataPos == 0)
    }

    ghost function Value(): Msg
      requires Valid()
      reads this
    {
      Msg(hdrbuf[..hdrPos], inData, if inData then recv[..dataPos] else [])
    }

    constructor ()
      ensures Valid() && Value() == NEW_MSG && !Complete()
    {
      inData, hdrbuf, hdrPos := false, seq(HEADER_SIZE, _ => 0), 0;
      size, recv, dataPos := 0, [], 0;
    }

    predicate Complete()
      reads this
    {
      inData && size == dataPos
    }

    lemma ValueFits()
      requires Valid()
      ensures WellFormed(Value()) && (!inData ==> |Value().header| < HEADER_SIZE && Value().data == [])
      ensures Complete() == Value().Complete()
    {
      assert inData ==> hdrbuf[..hdrPos] == hdrbuf;
    }

    /** Copies bytes into the header; once it is full, prepares for the body or refuses its size. */
    method ReadHeader(bytes: seq<Byte>) returns (handled: int)
      requires Valid() && !inData && bytes != []
      modifies this
      ensures handled >= 0 ==> Valid() && 0 < handled <= |bytes|
      ensures handled >= 0 ==> |old(Value()).header| + handled <= HEADER_SIZE
      ensures handled >= 0 ==> HeaderFed([], old(Value()).header + bytes[..handled]) == Received([Value()], true)
      ensures handled < 0 ==>
                var n := HEADER_SIZE - old(hdrPos);
                0 < n <= |bytes| && !HeaderFed([], old(Value()).header + bytes[..n]).ok
    {
      var remaining := HEADER_SIZE - hdrPos;
      var copy := if remaining < |bytes| then remaining else |bytes|;
      hdrbuf := hdrbuf[..hdrPos] + bytes[..copy] + hdrbuf[hdrPos + copy..];
      hdrPos := hdrPos + copy;
      assert hdrbuf[..hdrPos] == old(hdrbuf[..hdrPos]) + bytes[..copy];
      if hdrPos < HEADER_SIZE {
        return copy;
      }
      assert hdrbuf[..hdrPos] == hdrbuf;
      if SizeIn(hdrbuf) > MAX_SIZE {
        return -1;
      }
      size := SizeIn(hdrbuf);
      inData := true;
      recv := seq(size, _ => 0);
      handled := copy;
    }

    method ReadData(bytes: seq<Byte>) returns (handled: int)
      requires Valid() && inData && !Complete() && bytes != []
      modifies this
      ensures Valid() && 0 < handled <= |bytes|
      ensures handled <= SizeIn(old(Value()).header) - |old(Value()).data|
      ensures Value() == old(Value()).(data := old(Value()).data + bytes[..handled])
    {
      var remaining := size - dataPos;
      var copy := if remaining < |bytes| then remaining else |bytes|;
      assert hdrbuf[..hdrPos] == hdrbuf;
      recv := recv[..dataPos] + bytes[..copy] + recv[dataPos + copy..];
      dataPos := dataPos + copy;
      assert recv[..dataPos] == old(recv[..dataPos]) + bytes[..copy];
      handled := copy;
    }
  }

  ghost predicate AllValid(ms: seq<NetMessage>)
    reads ms
  {
    forall i :: 0 <= i < |ms| ==> ms[i].Valid()
  }

  ghost function Values(ms: seq<NetMessage>): (r: seq<Msg>)
    requires AllValid(ms)
    reads ms
    ensures |r| == |ms|
    ensures forall i :: 0 <= i < |ms| ==> r[i] == ms[i].Value()
  {
    if ms == [] then [] else Values(ms[..|ms| - 1]) + [ms[|ms| - 1].Value()]
  }

  /** Changing the last message leaves the values of the others alone. */
  twostate lemma OnlyLast(ms: seq<NetMessage>)
    requires ms != [] && Distinct(ms) && old(AllValid(ms)) && ms[|ms| - 1].Valid()
    requires forall i :: 0 <= i < |ms| - 1 ==> unchanged(ms[i])
    ensures AllValid(ms) && Values(ms) == old(Values(ms))[..|ms| - 1] + [ms[|ms| - 1].Value()]
  {
    hide NetMessage.Valid, NetMessage.Value, Values;
    forall i | 0 <= i < |ms| - 1
      ensures ms[i].Valid() && ms[i].Value() == old(ms[i].Value())
    {
    }
  }

  lemma ValuesAppended(ms: seq<NetMessage>, m: NetMessage)
    requires AllValid(ms) && m.Valid()
    ensures AllValid(ms + [m]) && Values(ms + [m]) == Values(ms) + [m.Value()]
  {
    hide NetMessage.Valid, NetMessage.Value, Values;
    var longer := ms + [m];
    forall i | 0 <= i < |longer|
      ensures longer[i].Valid()
    {
    }
    assert Values(longer) == Values(ms) + [m.Value()];
  }

  twostate predicate SameOrFresh(before: seq<NetMessage>, new now: seq<NetMessage>) {
    forall i :: 0 <= i < |now| ==> now[i] in before || fresh(now[i])
  }

  class Receiver {
    var msgs: seq<NetMessage>

    ghost predicate Valid()
      reads this, msgs
    {
      Distinct(msgs) && AllValid(msgs)
    }

    constructor ()
      ensures Valid() && msgs == []
    {
      msgs := [];
    }

    /**
     Takes a chunk of bytes in, each pass absorbing at least one. The outcome is that of
     feeding the automaton byte by byte; false means that a header was refused.
     */
    method ReceiveMsgBytes(bytes: seq<Byte>) returns (ok: bool)
      requires Valid()
      modifies this, msgs
      ensures ok == Feed(Received(old(Values(msgs)), true), bytes).ok
      ensures ok ==> Valid() && Values(msgs) == Feed(Received(old(Values(msgs)), true), bytes).msgs
      ensures SameOrFresh(old(msgs), msgs)
    {
      hide Feed;
      ghost var start := Received(Values(msgs), true);
      var rest := bytes;
      while |rest| > 0
        invariant Valid()
        invariant SameOrFresh(old(msgs), msgs)
        invariant Feed(start, bytes) == Feed(Received(Values(msgs), true), rest)
        decreases |rest|
      {
        var handled := Pass(rest);
        if handled < 0 {
          return false;
        }
        rest := rest[handled..];
      }
      FeedNothing(Received(Values(msgs), true));
      ok := true;
    }

    /** One pass of the loop: opens a message if need be and lets it absorb what it can. */
    method Pass(bytes: seq<Byte>) returns (handled: int)
      requires Valid() && bytes != []
      modifies this, msgs
      ensures SameOrFresh(old(msgs), msgs)
      ensures handled >= 0 ==> Valid() && 0 < handled <= |bytes|
      ensures handled >= 0 ==>
                Feed(Received(old(Values(msgs)), true), bytes) == Feed(Received(Values(msgs), true), bytes[handled..])
      ensures handled < 0 ==> !Feed(Received(old(Values(msgs)), true), bytes).ok
    {
      hide Feed, HeaderFed, Open, WellFormed, SizeIn;
      FeedOpens(Values(msgs), bytes);
      OpenMessage();
      handled := Deliver(bytes);
    }

    /** Hands bytes to the last message. */
    method Deliver(bytes: seq<Byte>) returns (handled: int)
      requires Valid() && bytes != [] && msgs != [] && !msgs[|msgs| - 1].Complete()
      modifies msgs[|msgs| - 1]
      ensures handled >= 0 ==> Valid() && 0 < handled <= |bytes|
      ensures handled >= 0 ==>
                Feed(Received(old(Values(msgs)), true), bytes) == Feed(Received(Values(msgs), true), bytes[handled..])
      ensures handled < 0 ==> !Feed(Received(old(Values(msgs)), true), bytes).ok
    {
      hide Feed, HeaderFed, SizeIn;
      ghost var before := Values(msgs);
      var m := msgs[|msgs| - 1];
      m.ValueFits();
      if !m.inData {
        handled := m.ReadHeader(bytes);
        HeaderPass(before, bytes, if handled < 0 then HEADER_SIZE - |before[|msgs| - 1].header| else handled);
        if handled < 0 {
          return;
        }
      } else {
        handled := m.ReadData(bytes);
        DataPass(before, bytes, handled);
      }
      OnlyLast(msgs);
    }

    method OpenMessage()
      requires Valid()
      modifies this
      ensures Valid() && msgs != [] && !msgs[|msgs| - 1].Complete()
      ensures Values(msgs) == Open(old(Values(msgs)))
      ensures SameOrFresh(old(msgs), msgs)
    {
      hide Msg.Complete, SizeIn, NetMessage.Value, Values;
      ghost var before := Values(msgs);
      if msgs != [] {
        msgs[|msgs| - 1].ValueFits();
      }
      if |msgs| == 0 || msgs[|msgs| - 1].Complete() {
        var m := new NetMessage();
        ValuesAppended(msgs, m);
        msgs := msgs + [m];
        m.ValueFits();
      }
    }
  }

  lemma FeedNothing(r: Received)
    ensures Feed(r, []) == r
  {
  }

  /** The last message takes a piece of header. */
  lemma HeaderPass(msgs: seq<Msg>, bytes: seq<Byte>, n: nat)
    requires msgs != [] && 0 < n <= |bytes|
    requires var m := msgs[|msgs| - 1]; !m.inData && m.data == [] && |m.header| < HEADER_SIZE && |m.header| + n <= HEADER_SIZE
    ensures var fed := HeaderFed([], msgs[|msgs| - 1].header + bytes[..n]);
            if fed.ok then
              Feed(Received(msgs, true), bytes) == Feed(Received(msgs[..|msgs| - 1] + fed.msgs, true), bytes[n..])
            else
              !Feed(Received(msgs, true), bytes).ok
  {
    hide Feed, SizeIn, HeaderFed;
    var front, m := msgs[..|msgs| - 1], msgs[|msgs| - 1];
    var header, chunk, rest := m.header + bytes[..n], bytes[..n], bytes[n..];
    assert msgs == front + [Msg(m.header, false, [])];
    FeedInHeader(front, m.header, chunk);
    HeaderFedIn(front, header);
    assert bytes == chunk + rest;
    FeedChunks(Received(msgs, true), chunk, rest);
    var fed := HeaderFed(front, header);
    assert Feed(Received(msgs, true), bytes) == Feed(fed, rest);
    if !fed.ok {
      FeedFailed(fed, rest);
    } else {
      assert fed == Received(front + HeaderFed([], header).msgs, true);
    }
  }

  /** The last message takes a piece of body. */
  lemma DataPass(msgs: seq<Msg>, bytes: seq<Byte>, n: nat)
    requires msgs != [] && 0 < n <= |bytes|
    requires var m := msgs[|msgs| - 1]; WellFormed(m) && m.inData && n <= SizeIn(m.header) - |m.data|
    ensures var m := msgs[|msgs| - 1];
            Feed(Received(msgs, true), bytes)
            == Feed(Received(msgs[..|msgs| - 1] + [m.(data := m.data + bytes[..n])], true), bytes[n..])
  {
    hide Feed, SizeIn;
    var front, m := msgs[..|msgs| - 1], msgs[|msgs| - 1];
    assert front + [m] == msgs;
    FeedInData(front, m, bytes[..n]);
    assert bytes == bytes[..n] + bytes[n..];
    FeedChunks(Received(msgs, true), bytes[..n], bytes[n..]);
  }

  lemma HeaderFedIn(front: seq<Msg>, header: seq<Byte>)
    requires |header| <= HEADER_SIZE
    ensures HeaderFed(front, header).ok == HeaderFed([], header).ok
    ensures HeaderFed(front, header).msgs == front + HeaderFed([], header).msgs
  {
  }
}
