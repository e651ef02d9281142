/** One end of a uTP connection (src/utp/conn.rs): the object whose methods are the steps of UtpSending and
    UtpReceiving. */
module UtpConnection {
  import opened Numbers
  import opened Bytes
  import opened UtpReceiving
  import opened UtpSending

  datatype Kind = DataPacket | FinPacket | StatePacket | ResetPacket | SynPacket

  /** Both halves of one end that is open; the steps of its halves are those of the stream. */
  class Connection {
    var seqNr: u16
    var outbox: seq<byte>
    var inFlight: seq<Sent>
    var finPending: bool
    var finSent: bool
    var finAcked: bool
    var ended: bool
    var ackNr: u16
    var inbox: seq<byte>
    var reorder: map<u16, seq<byte>>
    var reorderBytes: int
    var finSeq: Option<u16>
    var peerClosed: bool

    ghost function Sending(): Sender
      reads this
    {
      Sender(seqNr, outbox, inFlight, finPending, finSent, finAcked, ended)
    }

    ghost function Receiving(): Receiver
      reads this
    {
      Receiver(ackNr, inbox, reorder, reorderBytes, finSeq, peerClosed)
    }

    /** An end that is open: its own packets start at `seqNr`, and it has the peer's up to `ackNr`. */
    constructor (seqNr: u16, ackNr: u16)
      ensures Sending() == Sender(seqNr, [], [], false, false, false, false) && Receiving() == Opened(ackNr)
    {
      this.seqNr, outbox, inFlight, finPending, finSent, finAcked, ended := seqNr, [], [], false, false, false, false;
      this.ackNr, inbox, reorder, reorderBytes, finSeq, peerClosed := ackNr, [], map[], 0, None, false;
    }

    method Write(data: seq<byte>) returns (taken: nat)
      modifies this`outbox
      ensures Sending() == old(WriteTo(Sending(), data)) && taken == old(Min(|data|, Writable(Sending())))
    {
      if ended || finPending {
        assert data[..0] == [] && outbox + [] == outbox;
        return 0;
      }
      var queued := 0;
      for i := 0 to |inFlight|
        invariant queued + BytesInFlight(inFlight[i..]) == BytesInFlight(inFlight)
      {
        assert inFlight[i..][1..] == inFlight[i + 1..];
        queued := queued + |inFlight[i].packet.payload|;
      }
      taken := Min(|data|, Max(SEND_BUFFER - (|outbox| + queued), 0));
      outbox := outbox + data[..taken];
    }

    method Read(count: nat) returns (bytes: seq<byte>)
      modifies this`inbox
      ensures Receiving() == old(ReadOut(Receiving(), count)) && bytes + inbox == old(inbox)
      ensures |bytes| == Min(count, |old(inbox)|)
    {
      var n := Min(count, |inbox|);
      bytes := inbox[..n];
      inbox := inbox[n..];
    }

    method Close()
      modifies this`finPending
      ensures finPending
    {
      finPending := true;
    }

    /** `receive`: what is due is taken with all that was waiting for it. */
    method Receive(number: u16, p: Packet)
      modifies this
      ensures Receiving() == old(UtpReceiving.Receive(Receiving(), number, p)) && Sending() == old(Sending())
    {
      var ahead := Ahead(number, ackNr);
      if ahead == 0 || ahead > REORDER_WINDOW || |p.payload| > Max(RECEIVE_BUFFER - (|inbox| + reorderBytes), 0) {
        return;
      }
      AheadOne(number, ackNr);
      if p.fin {
        finSeq := Some(number);
      }
      if ahead == 1 {
        inbox := inbox + p.payload;
        ackNr := number;
        DrainWaiting();
      } else if number !in reorder {
        reorderBytes := reorderBytes + |p.payload|;
        reorder := reorder[number := p.payload];
      }
      if finSeq == Some(ackNr) {
        peerClosed := true;
      }
    }

    method DrainWaiting()
      modifies this`ackNr, this`inbox, this`reorder, this`reorderBytes
      ensures Receiving() == old(Drain(Receiving()))
    {
      while Number(ackNr, 1) in reorder
        invariant Drain(Receiving()) == old(Drain(Receiving()))
        invariant finSeq == old(finSeq) && peerClosed == old(peerClosed)
        decreases reorder.Keys
      {
        var next := Number(ackNr, 1);
        ghost var before := Receiving();
        var payload := reorder[next];
        reorder := reorder - {next};
        reorderBytes := reorderBytes - |payload|;
        inbox := inbox + payload;
        ackNr := next;
        assert Receiving() == TakeNext(before);
      }
    }

    /** The packets an acknowledgement covers are let go of. */
    method ProcessAck(ack: u16)
      modifies this`inFlight, this`finAcked
      ensures Sending() == old(Acknowledge(Sending(), ack))
    {
      if inFlight != [] && !SeqLe(ack, Ahead(seqNr, 1)) {
        return;
      }
      ghost var all, k := inFlight, 0;
      while inFlight != [] && SeqLe(inFlight[0].number, ack)
        invariant k <= |all| && inFlight == all[k..] && PopAcked(all[k..], ack) == PopAcked(all, ack)
        invariant finAcked <==> old(finAcked) || HasFin(all[..k])
      {
        assert all[k..][1..] == all[k + 1..];
        FinAmong(all, k);
        finAcked := finAcked || inFlight[0].packet.fin;
        inFlight := inFlight[1..];
        k := k + 1;
      }
      PoppedAre(all, k, ack);
    }

    /** `on_packet`: an acknowledgement counts whatever the packet is that carries it, a connection request included. */
    method OnPacket(kind: Kind, number: u16, ack: u16, payload: seq<byte>)
      modifies this
      ensures Sending() == old(if kind.ResetPacket? then HearReset(Sending()) else HearAck(Sending(), ack))
      ensures Receiving()
           == old(if ended || !(kind.DataPacket? || kind.FinPacket?) then Receiving()
                  else UtpReceiving.Receive(Receiving(), number, Packet(kind.FinPacket?, payload)))
    {
      if ended {
        return;
      }
      if kind.ResetPacket? {
        inFlight := [];
        ended := true;
        return;
      }
      ProcessAck(ack);
      if kind.DataPacket? || kind.FinPacket? {
        Receive(number, Packet(kind.FinPacket?, payload));
      }
    }

    /** The next packet of what is queued; the caller sees that there is something and that the window allows it. */
    method SendData() returns (sent: Sent)
      requires !ended && outbox != []
      modifies this`seqNr, this`outbox, this`inFlight
      ensures Sending() == old(UtpSending.SendData(Sending())) && sent == Sent(old(seqNr), old(NextData(Sending())))
    {
      var n := Min(|outbox|, MAX_PAYLOAD);
      sent := Sent(seqNr, Packet(false, outbox[..n]));
      outbox := outbox[n..];
      seqNr := Number(seqNr, 1);
      inFlight := inFlight + [sent];
    }

    method SendFin() returns (sent: Option<Sent>)
      modifies this`seqNr, this`finSent, this`inFlight
      ensures Sending() == old(if MayClose(Sending()) then UtpSending.SendFin(Sending()) else Sending())
      ensures sent == old(if MayClose(Sending()) then Some(Sent(seqNr, Packet(true, []))) else None)
    {
      sent := None;
      if !ended && finPending && !finSent && outbox == [] {
        sent := Some(Sent(seqNr, Packet(true, [])));
        finSent := true;
        seqNr := Number(seqNr, 1);
        inFlight := inFlight + [sent.value];
      }
    }
  }
}
