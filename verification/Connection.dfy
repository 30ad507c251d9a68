/** A connection: the receive buffer, and the bytes the socket will still hand
    over, cut into chunks in any way the network likes. */
module Connections {
  import opened Bytes
  import opened Messages

  /** The buffer handed to the socket's receive call. */
  const BUFLEN: nat := 16384

  /** How the peer's stream ends. */
  datatype Ending = Closed | Broken

  datatype Status = OK | DISCONNECTED | ERROR

  function Flatten(chunks: seq<Octets>): Octets {
    if chunks == [] then [] else chunks[0] + Flatten(chunks[1..])
  }

  function PrintAll(msgs: seq<Message>): seq<Octets> {
    if msgs == [] then [] else [ToWire(msgs[0])] + PrintAll(msgs[1..])
  }

  lemma {:induction false} PrintedAt(msgs: seq<Message>, i: nat)
    requires i < |msgs|
    ensures |PrintAll(msgs)| == |msgs| && PrintAll(msgs)[i] == ToWire(msgs[i])
  {
    hide ToWire, Message.Extra, Message.Value;
    if |msgs| > 1 {
      PrintedAt(msgs[1..], if i == 0 then 0 else i - 1);
    }
  }

  lemma {:induction false} PrintOneMore(msgs: seq<Message>, m: Message)
    ensures PrintAll(msgs + [m]) == PrintAll(msgs) + [ToWire(m)]
  {
    hide ToWire, Message.Extra, Message.Value;
    if msgs == [] {
      assert msgs + [m] == [m];
      assert PrintAll([m]) == [ToWire(m)] + PrintAll([m][1..]) && [m][1..] == [];
    } else {
      PrintOneMore(msgs[1..], m);
      assert (msgs + [m])[1..] == msgs[1..] + [m];
    }
  }

  lemma {:induction false} FlattenOneMore(chunks: seq<Octets>, c: Octets)
    ensures Flatten(chunks + [c]) == Flatten(chunks) + c
  {
    if chunks == [] {
      assert chunks + [c] == [c] && [c][1..] == [];
    } else {
      FlattenOneMore(chunks[1..], c);
      assert (chunks + [c])[1..] == chunks[1..] + [c];
    }
  }

  /** The messages at the front of a byte stream, up to the first incomplete one. */
  function MessagesIn(s: Octets): seq<Message>
    decreases |s|
  {
    match Frame(s)
    case Parsed(m, rest) => FrameShrinks(s); [m] + MessagesIn(rest)
    case _ => []
  }

  /** The bytes after the last complete message. */
  function Leftover(s: Octets): Octets
    decreases |s|
  {
    match Frame(s)
    case Parsed(_, rest) => FrameShrinks(s); Leftover(rest)
    case _ => s
  }

  lemma FrameShrinks(s: Octets)
    ensures Frame(s).Parsed? ==> |Frame(s).rest| < |s| && |s| - |Frame(s).rest| == FrameSize(s)
  {
    hide Decode;
  }

  /** Every packet of the stream is well formed, and is small enough for the
      32-bit buffer length never to wrap while it is being collected. */
  ghost predicate WellFormedStream(s: Octets)
    decreases |s|
  {
    && Frame(s) != Undefined
    && (|s| >= HEADER ==> FrameSize(s) + BUFLEN <= 0x1_0000_0000)
    && (Frame(s).Parsed? ==> (FrameShrinks(s); WellFormedStream(Frame(s).rest)))
  }

  /** While a packet of a well-formed stream is incomplete the buffer is short
      enough for the next chunk, and what the code sees after adding that chunk is
      the true framing. */
  lemma NextChunk(buffer: Octets, chunk: Octets, later: Octets)
    requires WellFormedStream(buffer + chunk + later)
    requires Frame(buffer) == Incomplete && |chunk| <= BUFLEN
    ensures FromWire(buffer + chunk) == Frame(buffer + chunk) != Undefined
    ensures Frame(buffer + chunk).Parsed? ==> |Frame(buffer + chunk).rest| <= BUFLEN
  {
    hide Decode, FromWire, BodyLength, WellFormed;
    var s := buffer + chunk + later;
    FrameExtends(buffer + chunk, later);
    if |buffer| >= HEADER {
      FrameExtends(buffer, chunk + later);
      assert buffer + (chunk + later) == s;
      FrameExtends(buffer, chunk);
    }
    FromWireIsFrame(buffer + chunk);
    FrameShrinks(buffer + chunk);
  }

  /** What the receive call may return, chunk by chunk. */
  ghost predicate Receivable(chunks: seq<Octets>) {
    forall i :: 0 <= i < |chunks| ==> 0 < |chunks[i]| <= 16 * 1024
  }

  ghost predicate Prints(bytes: Octets, msgs: seq<Message>) {
    bytes == Flatten(PrintAll(msgs))
  }

  lemma PrintsOneMore(bytes: Octets, msgs: seq<Message>, m: Message)
    requires Prints(bytes, msgs)
    ensures Prints(bytes + ToWire(m), msgs + [m])
  {
    hide ToWire, PrintAll, Flatten;
    PrintOneMore(msgs, m);
    FlattenOneMore(PrintAll(msgs), ToWire(m));
  }

  class Connection {
    /** False once the socket has been closed. */
    var open: bool
    /** Bytes received and not yet parsed. */
    var buffer: Octets
    /** What the coming receive calls will return, then how the stream ends. */
    var incoming: seq<Octets>
    const ending: Ending
    /** Bytes the socket has accepted, and the messages they print. */
    var written: Octets
    ghost var sent: seq<Message>

    /** All bytes not yet parsed: received and still to come. */
    ghost function Pending(): Octets
      reads this
    {
      buffer + Flatten(incoming)
    }

    ghost predicate Valid()
      reads this
    {
      && (open ==> |buffer| <= BUFLEN)
      && Receivable(incoming)
      && WellFormedStream(Pending())
      && Prints(written, sent)
    }

    constructor (chunks: seq<Octets>, ending: Ending)
      requires Receivable(chunks) && WellFormedStream(Flatten(chunks))
      ensures Valid() && open && Pending() == Flatten(chunks) && this.ending == ending && sent == [] && written == []
    {
      hide WellFormedStream, Receivable;
      open := true;
      buffer := [];
      incoming := chunks;
      this.ending := ending;
      written, sent := [], [];
      new;
      assert [] + Flatten(chunks) == Flatten(chunks);
    }

    /** `send`: the message is printed onto an open socket, which takes all of it or
        fails and is closed. */
    method Send(m: Message, accepted: bool) returns (ok: bool)
      requires Valid()
      modifies this`open, this`written, this`sent
      ensures Valid() && Pending() == old(Pending())
      ensures ok <==> old(open) && accepted
      ensures open == ok
      ensures written == old(written) + if ok then ToWire(m) else []
      ensures sent == old(sent) + if ok then [m] else []
    {
      hide ToWire, Prints, Receivable, Flatten, WellFormedStream;
      if !open {
        return false;
      }
      if !accepted {
        open := false;
        return false;
      }
      PrintsOneMore(written, sent, m);
      written := written + ToWire(m);
      sent := sent + [m];
      return true;
    }

    /** `disconnect` */
    method Disconnect()
      requires Valid()
      modifies this`open
      ensures Valid() && !open && Pending() == old(Pending())
    {
      hide Prints, Receivable, WellFormedStream, Flatten;
      open := false;
    }

    /** `recv`: what it returns is a function of the pending bytes alone, however
        they are cut into chunks. A complete message is always delivered before
        the end of the stream is reported. */
    method Recv() returns (status: Status, msg: Option<Message>)
      requires Valid()
      modifies this`open, this`buffer, this`incoming
      ensures Valid()
      ensures !old(open) ==> status == DISCONNECTED && msg == None && !open && Pending() == old(Pending())
      ensures old(open) && old(Frame(Pending())).Parsed? ==>
                && status == OK && open
                && msg == Some(old(Frame(Pending())).msg) && Pending() == old(Frame(Pending())).rest
      ensures old(open) && !old(Frame(Pending())).Parsed? ==>
                && status == (if ending == Closed then DISCONNECTED else ERROR) && msg == None
                && !open && Pending() == old(Pending()) && incoming == []
      ensures |incoming| <= |old(incoming)|
    {
      hide Decode, FromWire, Messages.Frame, Prints;
      if !open {
        return DISCONNECTED, None;
      }
      ghost var all := Pending();
      var parse := FromWire(buffer);
      FromWireIsFrame(buffer);
      FrameShrinks(buffer);
      FrameExtends(buffer, Flatten(incoming));
      while parse == Incomplete
        invariant open && Pending() == all && WellFormedStream(all)
        invariant Receivable(incoming)
        invariant parse == Messages.Frame(buffer) != Undefined
        invariant parse.Parsed? ==> |parse.rest| <= BUFLEN
        invariant |incoming| <= |old(incoming)|
        decreases |incoming|
      {
        if incoming == [] {
          open := false;
          assert buffer == all;
          status := if ending == Closed then DISCONNECTED else ERROR;
          return status, None;
        }
        assert all == (buffer + incoming[0]) + Flatten(incoming[1..]);
        NextChunk(buffer, incoming[0], Flatten(incoming[1..]));
        buffer := buffer + incoming[0];
        incoming := incoming[1..];
        parse := FromWire(buffer);
      }
      FrameExtends(buffer, Flatten(incoming));
      buffer := parse.rest;
      return OK, Some(parse.msg);
    }
  }
}
