/**
 The sending side of a connection: messages are queued whole and passed to a socket that may
 take any part of what it is offered, or nothing.
 */
module SendQueue {
  import opened Common
  import opened Framing

  const CHECKSUM_OFFSET: nat := 20
  const TWO_32: nat := 0x1_0000_0000

  function Total(entries: seq<seq<Byte>>): nat {
    if entries == [] then 0 else |entries[0]| + Total(entries[1..])
  }

  lemma {:induction false} ConcatAppended(entries: seq<seq<Byte>>, e: seq<Byte>)
    ensures Concat(entries + [e]) == Concat(entries) + e
    ensures Total(entries + [e]) == Total(entries) + |e|
  {
    if entries == [] {
      assert entries + [e] == [e];
      assert [e][1..] == [];
    } else {
      assert (entries + [e])[1..] == entries[1..] + [e];
      ConcatAppended(entries[1..], e);
    }
  }

  lemma EmptyQueue()
    ensures Total([]) == 0 && Concat([]) == []
  {
  }

  /** Four bytes, least significant first; larger numbers wrap. */
  function Bytes4(n: nat): seq<Byte> {
    [n % 0x100, n / 0x100 % 0x100, n / 0x1_0000 % 0x100, n / 0x100_0000 % 0x100]
  }

  /** What an ended message looks like: the size of the body is in its header. */
  predicate IsFrame(e: seq<Byte>) {
    HEADER_SIZE <= |e| && SizeIn(e[..HEADER_SIZE]) == (|e| - HEADER_SIZE) % TWO_32
  }

  /** The message an acceptable frame carries. */
  function Message(e: seq<Byte>): Msg
    requires IsFrame(e)
  {
    Msg(e[..HEADER_SIZE], true, e[HEADER_SIZE..])
  }

  function Messages(entries: seq<seq<Byte>>): (r: seq<Msg>)
    requires forall i :: 0 <= i < |entries| ==> IsFrame(entries[i])
    ensures |r| == |entries|
    ensures forall i :: 0 <= i < |entries| ==> r[i] == Message(entries[i])
  {
    seq(|entries|, i requires 0 <= i < |entries| => Message(entries[i]))
  }

  lemma SizeInBytes4(front: seq<Byte>, n: nat, back: seq<Byte>)
    requires |front| == MESSAGE_SIZE_OFFSET && |back| == HEADER_SIZE - CHECKSUM_OFFSET
    ensures SizeIn(front + Bytes4(n) + back) == n % TWO_32
  {
    var header := front + Bytes4(n) + back;
    assert header[16] == n % 0x100 && header[17] == n / 0x100 % 0x100;
    assert header[18] == n / 0x1_0000 % 0x100 && header[19] == n / 0x100_0000 % 0x100;
    Bytes4Value(n);
  }

  lemma Bytes4Value(n: nat)
    ensures n % 0x100 + 0x100 * (n / 0x100 % 0x100) + 0x1_0000 * (n / 0x1_0000 % 0x100)
            + 0x100_0000 * (n / 0x100_0000 % 0x100)
            == n % TWO_32
  {
    var a, b, c := n / 0x100, n / 0x1_0000, n / 0x100_0000;
    assert b == a / 0x100 && c == b / 0x100;
    assert c / 0x100 == n / TWO_32;
  }

  /** How much the socket was offered, how much it took, and its error if it took less than nothing. */
  datatype Call = Call(offered: nat, taken: int, error: int) {
    predicate IsShort() {
      taken < offered
    }
  }

  // Error codes that do not end a connection.
  const WSAEINTR: int := 4
  const WSAEWOULDBLOCK: int := 11
  const WSAEMSGSIZE: int := 90
  const WSAEINPROGRESS: int := 115

  /** Calls in a row: only the last one may be answered short, and it is exactly if something is left. */
  predicate InARow(made: seq<Call>, left: bool) {
    && (forall i :: 0 <= i < |made| - 1 ==> !made[i].IsShort())
    && (left <==> made != [] && made[|made| - 1].IsShort())
  }

  /** Does the last call end the connection? */
  predicate EndsConnection(made: seq<Call>) {
    made != [] &&
    var last := made[|made| - 1];
    last.taken < 0 && last.error !in {WSAEWOULDBLOCK, WSAEMSGSIZE, WSAEINTR, WSAEINPROGRESS}
  }

  lemma NoCalls()
    ensures InARow([], false) && !EndsConnection([])
  {
  }

  lemma OneMoreCall(made: seq<Call>, call: Call)
    requires InARow(made, false)
    ensures InARow(made + [call], call.IsShort())
    ensures EndsConnection(made + [call]) <==>
              call.taken < 0 && call.error !in {WSAEWOULDBLOCK, WSAEMSGSIZE, WSAEINTR, WSAEINPROGRESS}
  {
  }

  class Sender {
    var ssSend: seq<Byte>
    var sendMsg: seq<seq<Byte>>
    var sendSize: int
    var sendOffset: nat
    var disconnected: bool
    /** Every entry ever queued, and every byte the socket took. */
    ghost var queued: seq<seq<Byte>>
    ghost var wire: seq<Byte>
    ghost var calls: seq<Call>

    /** The queue without the part of its first entry that is already on the wire. */
    ghost predicate Queue(entries: seq<seq<Byte>>)
      reads this
    {
      && sendSize == Total(entries)
      && (forall i :: 0 <= i < |entries| ==> entries[i] != [])
      && (if entries == [] then sendOffset == 0 else sendOffset < |entries[0]|)
      && sendOffset <= |Concat(entries)|
      && wire + Concat(entries)[sendOffset..] == Concat(queued)
    }

    ghost predicate Valid()
      reads this
    {
      && Queue(sendMsg)
      && (ssSend == [] || |ssSend| >= HEADER_SIZE)
      && (forall i :: 0 <= i < |queued| ==> IsFrame(queued[i]))
    }

    constructor ()
      ensures Valid() && ssSend == [] && queued == [] && wire == []
    {
      ssSend, sendMsg, sendSize, sendOffset, disconnected := [], [], 0, 0, false;
      queued, wire, calls := [], [], [];
    }

    /** The socket: takes a first part of the data, or answers with an error. */
    method Send(data: seq<Byte>) returns (n: int, error: int)
      modifies this`wire, this`calls
      ensures -1 <= n <= |data|
      ensures wire == old(wire) + if n > 0 then data[..n] else []
      ensures calls == old(calls) + [Call(|data|, n, error)]
    {
      n :| -1 <= n <= |data|;
      error :| true;
      wire := wire + if n > 0 then data[..n] else [];
      calls := calls + [Call(|data|, n, error)];
    }

    /**
     Passes on as much as the socket takes: everything, unless the last call was answered short,
     and nothing more after that. Entries leave in order, none is lost, and what is left is
     counted right. The connection ends exactly with an error that is not passing.
     */
    method SocketSendData() returns (ghost made: seq<Call>)
      requires Valid()
      modifies this`sendMsg, this`sendSize, this`sendOffset, this`disconnected, this`wire, this`calls
      ensures Valid()
      ensures calls == old(calls) + made && InARow(made, sendMsg != []) && (old(sendMsg) != [] ==> made != [])
      ensures exists n :: 0 <= n <= |old(sendMsg)| && sendMsg == old(sendMsg)[n..]
      ensures disconnected == (old(disconnected) || EndsConnection(made))
    {
      hide Concat, Total, IsFrame, InARow, EndsConnection;
      var it := 0;
      made := [];
      NoCalls();
      while it < |sendMsg|
        invariant 0 <= it <= |sendMsg|
        invariant Queue(sendMsg[it..])
        invariant sendMsg == old(sendMsg) && calls == old(calls) + made
        invariant InARow(made, false) && !EndsConnection(made) && |made| == it && disconnected == old(disconnected)
      {
        var data := sendMsg[it];
        assert |data| > sendOffset;
        ghost var entries := sendMsg[it..];
        QueueFront(entries);
        assert entries[1..] == sendMsg[it + 1..];
        var bytes, error := SendFront(data, entries);
        OneMoreCall(made, Call(|data| - sendOffset, bytes, error));
        made := made + [Call(|data| - sendOffset, bytes, error)];
        if bytes > 0 {
          sendOffset := sendOffset + bytes;
          if sendOffset == |data| {
            sendOffset := 0;
            sendSize := sendSize - |data|;
            it := it + 1;
          } else {
            break;
          }
        } else {
          if bytes < 0 {
            if error != WSAEWOULDBLOCK && error != WSAEMSGSIZE && error != WSAEINTR && error != WSAEINPROGRESS {
              disconnected := true;
            }
          }
          break;
        }
      }
      if it == |sendMsg| {
        assert sendOffset == 0;
        EmptyQueue();
        assert sendSize == 0;
      }
      sendMsg := sendMsg[it..];
    }

    /** Offers the socket what is left of the first entry. */
    method SendFront(data: seq<Byte>, ghost entries: seq<seq<Byte>>) returns (bytes: int, error: int)
      requires entries != [] && Queue(entries) && data == entries[0]
      modifies this`wire, this`calls
      ensures -1 <= bytes <= |data| - sendOffset
      ensures calls == old(calls) + [Call(|data| - sendOffset, bytes, error)]
      ensures bytes <= 0 ==> wire == old(wire)
      ensures bytes > 0 ==> wire + Concat(entries)[sendOffset + bytes..] == Concat(queued)
    {
      bytes, error := Send(data[sendOffset..]);
      if bytes > 0 {
        var n := sendOffset + bytes;
        assert data[sendOffset..][..bytes] + Concat(entries)[n..] == Concat(entries)[sendOffset..];
      }
    }

    lemma QueueFront(entries: seq<seq<Byte>>)
      requires entries != []
      ensures Total(entries) == |entries[0]| + Total(entries[1..])
      ensures |Concat(entries)| == |entries[0]| + |Concat(entries[1..])|
      ensures Concat(entries)[|entries[0]|..] == Concat(entries[1..]) == Concat(entries[1..])[0..]
    {
    }

    /** Starts a message: its header, with size and checksum still zero. */
    method BeginMessage(start: seq<Byte>)
      requires Valid() && ssSend == [] && |start| == MESSAGE_SIZE_OFFSET
      modifies this`ssSend
      ensures Valid() && ssSend == start + Bytes4(0) + Bytes4(0)
    {
      ssSend := start + Bytes4(0) + Bytes4(0);
    }

    method Write(body: seq<Byte>)
      requires Valid() && ssSend != []
      modifies this`ssSend
      ensures Valid() && ssSend == old(ssSend) + body
    {
      ssSend := ssSend + body;
    }

    method AbortMessage()
      requires Valid()
      modifies this`ssSend
      ensures Valid() && ssSend == []
    {
      ssSend := [];
    }

    /**
     Ends a message: it is queued with its size and checksum filled in, and sent at once if
     nothing was waiting. A message may be dropped instead, and nothing happens without one.
     */
    method EndMessage(drop: bool, checksum: seq<Byte> -> nat) returns (ghost made: seq<Call>)
      requires Valid()
      modifies this
      ensures Valid() && ssSend == []
      ensures queued == old(queued) + if drop || old(ssSend) == [] then [] else [Ended(old(ssSend), checksum)]
      ensures calls == old(calls) + made
      ensures drop || old(ssSend) == [] ==> sendMsg == old(sendMsg)
      ensures !drop && old(ssSend) != [] && old(sendMsg) != [] ==>
                sendMsg == old(sendMsg) + [Ended(old(ssSend), checksum)]
      ensures if drop || old(ssSend) == [] || old(sendMsg) != [] then
                made == [] && wire == old(wire) && disconnected == old(disconnected)
              else
                && made != [] && InARow(made, sendMsg != [])
                && (sendMsg == [] || sendMsg == [Ended(old(ssSend), checksum)])
                && disconnected == (old(disconnected) || EndsConnection(made))
    {
      made := [];
      if drop {
        AbortMessage();
        return;
      }
      if ssSend == [] {
        return;
      }
      ssSend := Ended(ssSend, checksum);
      Enqueue();
      if |sendMsg| == 1 {
        made := SocketSendData();
      }
    }

    method Enqueue()
      requires Queue(sendMsg) && IsFrame(ssSend)
      requires forall i :: 0 <= i < |queued| ==> IsFrame(queued[i])
      modifies this`ssSend, this`sendMsg, this`sendSize, this`queued
      ensures Valid() && ssSend == []
      ensures queued == old(queued) + [old(ssSend)] && sendMsg == old(sendMsg) + [old(ssSend)]
    {
      hide Concat, Total;
      ConcatAppended(sendMsg, ssSend);
      ConcatAppended(queued, ssSend);
      ghost var pending := Concat(sendMsg)[sendOffset..];
      assert (Concat(sendMsg) + ssSend)[sendOffset..] == pending + ssSend;
      assert wire + (pending + ssSend) == wire + pending + ssSend;
      queued := queued + [ssSend];
      sendMsg := sendMsg + [ssSend];
      sendSize := sendSize + |ssSend|;
      ssSend := [];
    }
  }

  /** A message with size and checksum in its header. */
  function Ended(m: seq<Byte>, checksum: seq<Byte> -> nat): (e: seq<Byte>)
    requires |m| >= HEADER_SIZE
    ensures |e| == |m| && IsFrame(e) && e[HEADER_SIZE..] == m[HEADER_SIZE..]
    ensures e[..MESSAGE_SIZE_OFFSET] == m[..MESSAGE_SIZE_OFFSET]
    ensures e[CHECKSUM_OFFSET..HEADER_SIZE] == Bytes4(checksum(m[HEADER_SIZE..]))
  {
    var body := m[HEADER_SIZE..];
    var front, size, sum := m[..MESSAGE_SIZE_OFFSET], Bytes4(|body|), Bytes4(checksum(body));
    var e := front + size + sum + body;
    SizeInBytes4(front, |body|, sum);
    assert e[..HEADER_SIZE] == front + size + sum;
    assert e[CHECKSUM_OFFSET..HEADER_SIZE] == sum;
    e
  }

  // ---------- from end to end ----------

  /** Whether the receiver accepts the size of an entry's body. */
  ghost predicate Acceptable(entries: seq<seq<Byte>>) {
    forall i :: 0 <= i < |entries| ==> IsFrame(entries[i]) && |entries[i]| - HEADER_SIZE <= MAX_SIZE
  }

  lemma FrameIsComplete(e: seq<Byte>)
    requires IsFrame(e) && |e| - HEADER_SIZE <= MAX_SIZE
    ensures var m := Message(e); WellFormed(m) && m.Complete() && m.header + m.data == e
  {
    hide SizeIn;
  }

  lemma {:induction false} ConcatIsBytes(entries: seq<seq<Byte>>)
    requires Acceptable(entries)
    ensures AllComplete(Messages(entries)) && Bytes(Messages(entries)) == Concat(entries)
    decreases |entries|
  {
    hide IsFrame, Message, WellFormed, Msg.Complete, Concat, Total;
    EmptyQueue();
    forall i | 0 <= i < |entries|
      ensures WellFormed(Message(entries[i])) && Message(entries[i]).Complete()
    {
      FrameIsComplete(entries[i]);
    }
    if entries != [] {
      var k := |entries| - 1;
      var front, e, ms := entries[..k], entries[k], Messages(entries);
      ConcatIsBytes(front);
      ConcatAppended(front, e);
      FrameIsComplete(e);
      assert front + [e] == entries && ms[..k] == Messages(front);
      assert Bytes(ms) == Bytes(ms[..k]) + (ms[k].header + ms[k].data);
    }
  }

  /** The messages that are complete. */
  function Finished(msgs: seq<Msg>): seq<Msg> {
    if msgs == [] || msgs[|msgs| - 1].Complete() then msgs else msgs[..|msgs| - 1]
  }

  lemma {:induction false} FinishedStay(r: Received, bytes: seq<Byte>)
    ensures Finished(r.msgs) <= Feed(r, bytes).msgs
    decreases |bytes|
  {
    hide Msg.Complete, Absorb;
    if bytes != [] {
      var r' := FeedByte(r, bytes[0]);
      FinishedStay(r', bytes[1..]);
      assert Finished(r.msgs) <= Finished(r'.msgs);
    }
  }

  /**
   What a peer has made of the bytes that reached it so far: no header was refused, and the
   messages it completed are the first ones that were queued. Once the queue is empty they are
   all of them.
   */
  lemma PeerReceives(s: Sender)
    requires s.Valid() && Acceptable(s.queued)
    ensures var got := Feed(Received([], true), s.wire);
            got.ok && Finished(got.msgs) <= Messages(s.queued)
            && (s.sendMsg == [] ==> got.msgs == Messages(s.queued))
  {
    hide Feed, Finished;
    var start := Received([], true);
    ConcatIsBytes(s.queued);
    FeedMessages([], Messages(s.queued));
    var pending := Concat(s.sendMsg)[s.sendOffset..];
    FeedChunks(start, s.wire, pending);
    var got := Feed(start, s.wire);
    if !got.ok {
      FeedFailed(got, pending);
    }
    FinishedStay(got, pending);
    if s.sendMsg == [] {
      assert s.wire + pending == s.wire;
    }
  }
}
