/** Whole streams: the messages received are those that were sent, in order and
    for every way of cutting the bytes into chunks. */
module Framing {
  import opened Bytes
  import opened Messages
  import opened Connections
  import RoundTrip

  /** One complete, well-formed packet and nothing else. */
  predicate IsPacket(f: Octets) {
    |f| >= HEADER && FrameSize(f) == |f| && WellFormed(f)
  }

  function DecodeAll(packets: seq<Octets>): seq<Message>
    requires forall i :: 0 <= i < |packets| ==> IsPacket(packets[i])
  {
    if |packets| == 0 then []
    else assert IsPacket(packets[0]); [Decode(packets[0])] + DecodeAll(packets[1..])
  }

  lemma {:induction false} DecodedAt(packets: seq<Octets>, i: nat)
    requires (forall j :: 0 <= j < |packets| ==> IsPacket(packets[j])) && i < |packets|
    ensures |DecodeAll(packets)| == |packets| && DecodeAll(packets)[i] == Decode(packets[i])
  {
    hide Decode, IsPacket;
    if |packets| > 1 {
      DecodedAt(packets[1..], if i == 0 then 0 else i - 1);
    }
  }

  /** A stream of packets followed by a partial packet is parsed packet by packet
      and leaves the partial one. */
  lemma {:induction false} PacketsInOrder(packets: seq<Octets>, partial: Octets)
    requires forall i :: 0 <= i < |packets| ==> IsPacket(packets[i]) && |packets[i]| + BUFLEN <= 0x1_0000_0000
    requires Frame(partial) == Incomplete
    requires |partial| >= HEADER ==> FrameSize(partial) + BUFLEN <= 0x1_0000_0000
    ensures WellFormedStream(Flatten(packets) + partial)
    ensures MessagesIn(Flatten(packets) + partial) == DecodeAll(packets)
    ensures Leftover(Flatten(packets) + partial) == partial
  {
    hide Decode, Frame, MessagesIn, Leftover, WellFormedStream, IsPacket;
    if packets == [] {
      assert Flatten(packets) + partial == partial;
      PartialOnly(partial);
    } else {
      var f, later := packets[0], Flatten(packets[1..]) + partial;
      PacketsInOrder(packets[1..], partial);
      OnePacketMore(f, later);
      assert Flatten(packets) + partial == f + later;
    }
  }

  lemma PartialOnly(partial: Octets)
    requires Frame(partial) == Incomplete
    requires |partial| >= HEADER ==> FrameSize(partial) + BUFLEN <= 0x1_0000_0000
    ensures WellFormedStream(partial) && MessagesIn(partial) == [] && Leftover(partial) == partial
  {
    hide Decode;
  }

  lemma OnePacketMore(f: Octets, later: Octets)
    requires IsPacket(f) && |f| + BUFLEN <= 0x1_0000_0000 && WellFormedStream(later)
    ensures WellFormedStream(f + later)
    ensures MessagesIn(f + later) == [Decode(f)] + MessagesIn(later)
    ensures Leftover(f + later) == Leftover(later)
  {
    hide Decode, IsPacket, Frame;
    PacketAtFront(f, later);
    FrameShrinks(f + later);
  }

  lemma PacketAtFront(f: Octets, later: Octets)
    requires IsPacket(f)
    ensures Frame(f + later) == Parsed(Decode(f), later) && FrameSize(f + later) == |f|
  {
    hide Decode;
    FrameExtends(f, later);
    assert f[|f|..] + later == later;
  }

  /** Receiving until the stream ends gives exactly the messages of the stream:
      none lost, none twice, all of them before the end is reported. */
  method ReceiveAll(c: Connection) returns (msgs: seq<Message>, status: Status)
    requires c.Valid() && c.open
    modifies c
    ensures msgs == old(MessagesIn(c.Pending()))
    ensures !c.open && c.Pending() == old(Leftover(c.Pending()))
    ensures status == (if c.ending == Closed then DISCONNECTED else ERROR)
    ensures c.sent == old(c.sent) && c.written == old(c.written)
  {
    hide Frame, Prints, Receivable, WellFormedStream, Flatten;
    msgs := [];
    var msg;
    status, msg := c.Recv();
    ghost var start := old(c.Pending());
    FrameShrinks(start);
    while status == OK
      invariant c.Valid() && c.sent == old(c.sent) && c.written == old(c.written)
      invariant status == OK ==> c.open && msg.Some?
      invariant status == OK ==> old(MessagesIn(c.Pending())) == msgs + [msg.value] + MessagesIn(c.Pending())
      invariant status != OK ==> old(MessagesIn(c.Pending())) == msgs && !c.open
      invariant status != OK ==> status == (if c.ending == Closed then DISCONNECTED else ERROR)
      invariant old(Leftover(c.Pending())) == Leftover(c.Pending())
      invariant status != OK ==> Leftover(c.Pending()) == c.Pending()
      decreases if status == OK then |c.Pending()| + 1 else 0
    {
      ghost var before := c.Pending();
      FrameShrinks(before);
      msgs := msgs + [msg.value];
      status, msg := c.Recv();
    }
  }

  /** The chunking does not matter: equal bytes give equal messages. */
  method ChunkingIsInvisible(chunks: seq<Octets>, other: seq<Octets>, ending: Ending)
    returns (first: seq<Message>, second: seq<Message>)
    requires Receivable(chunks) && Receivable(other)
    requires Flatten(chunks) == Flatten(other) && WellFormedStream(Flatten(chunks))
    ensures first == second == MessagesIn(Flatten(chunks))
  {
    var c := new Connection(chunks, ending);
    var status;
    first, status := ReceiveAll(c);
    var d := new Connection(other, ending);
    second, status := ReceiveAll(d);
  }

  /** Sending any row of faithful messages and receiving them is the identity. */
  lemma {:induction false} SentIsReceived(msgs: seq<Message>)
    requires forall m :: m in msgs ==> RoundTrip.Faithful(m) && RoundTrip.Fits(m)
    requires forall m :: m in msgs ==> |ToWire(m)| + BUFLEN <= 0x1_0000_0000
    ensures WellFormedStream(Flatten(PrintAll(msgs)))
    ensures MessagesIn(Flatten(PrintAll(msgs))) == msgs && Leftover(Flatten(PrintAll(msgs))) == []
  {
    hide Decode, WellFormed, BodyLength, ToWire, RoundTrip.Faithful, RoundTrip.Fits, Frame;
    if msgs != [] {
      var w, later := ToWire(msgs[0]), Flatten(PrintAll(msgs[1..]));
      var s := Flatten(PrintAll(msgs));
      SentIsReceived(msgs[1..]);
      PrintedAtFront(msgs[0], later);
      assert s == w + later;
      FrameShrinks(s);
    } else {
      EmptyIsIncomplete();
    }
  }

  lemma EmptyIsIncomplete()
    ensures Frame([]) == Incomplete
  {
  }

  lemma PrintedAtFront(m: Message, later: Octets)
    requires RoundTrip.Faithful(m) && RoundTrip.Fits(m) && |ToWire(m)| < 0x1_0000_0000
    ensures Frame(ToWire(m) + later) == Parsed(m, later)
    ensures |ToWire(m) + later| >= HEADER && FrameSize(ToWire(m) + later) == |ToWire(m)|
  {
    hide Decode, ToWire, RoundTrip.Faithful, RoundTrip.Fits, WellFormed, Frame, FromWire;
    var w := ToWire(m);
    RoundTrip.MessageRoundTrip(m, []);
    assert w + [] == w;
    FromWireIsFrame(w);
    FrameExtends(w, later);
    FrameShrinks(w);
  }
}
