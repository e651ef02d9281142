/** Runs of the stream in which what the two ends promise does not hold: the inputs that show where the conditions of
    UtpStream are needed (src/utp/conn.rs, src/utp/socket.rs). */
module UtpLosses {
  import opened Numbers
  import opened Bytes
  import opened UtpReceiving
  import opened UtpSending
  import opened UtpStream

  // ---- one step further ------------------------------------------------------------

  lemma {:induction false} OneMore(w: World, actions: seq<Action>, a: Action)
    ensures Run(w, actions + [a]) == Step(Run(w, actions), a)
    ensures AllInPlace(w, actions + [a]) <==> AllInPlace(w, actions) && InPlace(Run(w, actions), a)
    ensures AllFair(w, actions + [a]) <==> AllFair(w, actions) && Fair(Run(w, actions), a)
    decreases |actions|
  {
    if actions == [] {
      assert [] + [a] == [a] && [a][1..] == [];
    } else {
      OneMore(Step(w, actions[0]), actions[1..], a);
      assert (actions + [a])[1..] == actions[1..] + [a];
    }
  }

  lemma StartIsReached(first: u16)
    ensures FairlyReachable(Start(first))
  {
    var none: seq<Action> := [];
    assert AllInPlace(Start(first), none) && AllFair(Start(first), none) && Run(Start(first), none) == Start(first);
  }

  lemma FairStep(w: World, a: Action)
    requires FairlyReachable(w) && InPlace(w, a) && Fair(w, a)
    ensures FairlyReachable(Step(w, a))
  {
    var actions :|
      AllInPlace(Start(w.first), actions) && AllFair(Start(w.first), actions) && w == Run(Start(w.first), actions);
    OneMore(Start(w.first), actions, a);
    assert AllInPlace(Start(w.first), actions + [a]);
  }

  lemma AnyStep(w: World, a: Action)
    requires Reachable(w) && InPlace(w, a)
    ensures Reachable(Step(w, a))
  {
    var actions :| AllInPlace(Start(w.first), actions) && w == Run(Start(w.first), actions);
    OneMore(Start(w.first), actions, a);
    assert AllInPlace(Start(w.first), actions + [a]);
  }

  // ---- packets of one byte, none of them arrived -----------------------------------

  function OneByteEach(bytes: seq<byte>): (sent: seq<Packet>)
    ensures |sent| == |bytes|
  {
    seq(|bytes|, i requires 0 <= i < |bytes| => Packet(false, [bytes[i]]))
  }

  function Flight(first: u16, sent: seq<Packet>): (inFlight: seq<Sent>)
    ensures |inFlight| == |sent|
  {
    seq(|sent|, i requires 0 <= i < |sent| => Sent(Number(first, i), sent[i]))
  }

  /** The connection is open at both ends, and each byte went out in a packet of its own. */
  function Pumped(first: u16, bytes: seq<byte>): World {
    var sent := OneByteEach(bytes);
    World(Sender(Number(first, |bytes|), [], Flight(first, sent), false, false, false, false),
          Some(Opened(NumberBefore(first, 0))), first, sent, 0, bytes, [], 0, 0, [0], [])
  }

  lemma OneByteMore(first: u16, bytes: seq<byte>, b: byte)
    ensures OneByteEach(bytes + [b]) == OneByteEach(bytes) + [Packet(false, [b])]
    ensures Flight(first, OneByteEach(bytes + [b]))
         == Flight(first, OneByteEach(bytes)) + [Sent(Number(first, |bytes|), Packet(false, [b]))]
  {
  }

  lemma {:induction false} FlightBytes(inFlight: seq<Sent>)
    requires forall k :: 0 <= k < |inFlight| ==> |inFlight[k].packet.payload| == 1
    ensures BytesInFlight(inFlight) == |inFlight|
  {
    if inFlight != [] {
      FlightBytes(inFlight[1..]);
    }
  }

  lemma PumpOne(first: u16, bytes: seq<byte>, b: byte)
    requires |bytes| < SEND_BUFFER
    ensures Step(Step(Pumped(first, bytes), Write([b])), SendNext) == Pumped(first, bytes + [b])
  {
    var w := Pumped(first, bytes);
    FlightBytes(w.s.inFlight);
    assert [b][..1] == [b] && [] + [b] == [b] && [b][1..] == [];
    OneByteMore(first, bytes, b);
    NextNumber(first, |bytes|);
  }

  lemma {:induction false} PumpedIsReached(first: u16, bytes: seq<byte>)
    requires |bytes| <= SEND_BUFFER
    ensures FairlyReachable(Pumped(first, bytes))
    decreases |bytes|
  {
    if bytes == [] {
      StartIsReached(first);
      FairStep(Start(first), SendState);
      FairStep(Step(Start(first), SendState), Open(0));
      OpenedFirst(first);
    } else {
      var front, b := bytes[..|bytes| - 1], bytes[|bytes| - 1];
      PumpedIsReached(first, front);
      FairStep(Pumped(first, front), Write([b]));
      FairStep(Step(Pumped(first, front), Write([b])), SendNext);
      PumpOne(first, front, b);
      assert bytes == front + [b];
    }
  }

  lemma OpenedFirst(first: u16)
    ensures Step(Step(Start(first), SendState), Open(0)) == Pumped(first, [])
  {
    assert [] + [0] == [0];
  }

  // ---- acknowledged and never received ---------------------------------------------

  /** Nothing was missed, every byte is taken for acknowledged, and one of them never came. */
  predicate Loses(w: World, b: byte) {
    w.r.Some? && w.from == 0 && w.written == [b] && IsFlushed(w.s) && w.read + w.r.value.inbox == []
  }

  /** A connection request that comes again, while the packet numbered 0 is in flight, lets go of it. */
  lemma RepeatedRequestLoses(b: byte)
    ensures var w := Pumped(0, [b]);
      FairlyReachable(w) && !Fair(w, Request) && Reachable(Step(w, Request)) && Loses(Step(w, Request), b)
  {
    var w := Pumped(0, [b]);
    PumpedIsReached(0, [b]);
    FairIsReachable(w);
    AnyStep(w, Request);
    assert w.s.inFlight == [Sent(0, Packet(false, [b]))];
    assert SeqLe(0, 0) && Ahead(w.s.seqNr, 1) == 0;
    assert w.s.inFlight[1..] == [] && PopAcked([], 0) == [];
  }

  /** So does a reset, whatever the number. */
  lemma ResetLoses(first: u16, b: byte)
    ensures var w := Pumped(first, [b]);
      FairlyReachable(w) && !Fair(w, Reset) && Reachable(Step(w, Reset)) && Loses(Step(w, Reset), b)
  {
    var w := Pumped(first, [b]);
    PumpedIsReached(first, [b]);
    FairIsReachable(w);
    AnyStep(w, Reset);
  }

  lemma FairIsReachable(w: World)
    requires FairlyReachable(w)
    ensures Reachable(w)
  {
  }

  // ---- opened too late -------------------------------------------------------------

  /** The end that accepts answers the request and writes a byte; its answer is lost, and the one it sends when it is
      asked again opens the connection one packet too far on. */
  function PacketOut(first: u16, b: byte): World {
    var p := Packet(false, [b]);
    var s := Sender(Number(first, 1), [], [Sent(first, p)], false, false, false, false);
    World(s, None, first, [p], 0, [b], [], 0, 0, [0], [])
  }

  function OpenedLate(first: u16, b: byte): World {
    PacketOut(first, b).(states := [0, 1], r := Some(Opened(first)), from := 1, taken := 1)
  }

  function HeardLate(first: u16, b: byte): World {
    var w := OpenedLate(first, b);
    w.(acks := [1], acked := 1, s := w.s.(inFlight := []))
  }

  lemma LatePacket(first: u16, b: byte)
    ensures Step(Step(Step(Start(first), SendState), Write([b])), SendNext) == PacketOut(first, b)
    ensures Step(Step(PacketOut(first, b), SendState), Open(1)) == OpenedLate(first, b)
  {
    assert [b][..1] == [b] && [] + [b] == [b] && [b][1..] == [] && [] + [0] == [0] && [0] + [1] == [0, 1];
    assert [] + [Packet(false, [b])] == [Packet(false, [b])];
    assert [] + [Sent(first, Packet(false, [b]))] == [Sent(first, Packet(false, [b]))];
    assert NumberBefore(first, 1) == first;
  }

  lemma LateAck(first: u16, b: byte)
    ensures var w := OpenedLate(first, b);
      && InPlace(w, Deliver(0)) && Step(w, Deliver(0)) == w
      && Step(Step(w, SendAck), DeliverAck(0)) == HeardLate(first, b)
  {
    var w := OpenedLate(first, b);
    assert Number(first, 0) == first && NumberBefore(first, 1) == first && Ahead(w.s.seqNr, 1) == first;
    assert w.s.inFlight[1..] == [] && PopAcked([], first) == [];
    assert PopAcked(w.s.inFlight, first) == [];
    assert [] + [1] == [1];
  }

  /** Then the byte is acknowledged and never read, though nothing came late and nothing unfair happened. */
  lemma LateOpeningLoses(first: u16, b: byte)
    ensures var w := HeardLate(first, b);
      && FairlyReachable(w) && w.r.Some? && w.written == [b] && IsFlushed(w.s) && w.read + w.r.value.inbox == []
  {
    var w0, w1, w2 := Start(first), PacketOut(first, b), OpenedLate(first, b);
    LatePacket(first, b);
    LateAck(first, b);
    StartIsReached(first);
    FairStep(w0, SendState);
    FairStep(Step(w0, SendState), Write([b]));
    FairStep(Step(Step(w0, SendState), Write([b])), SendNext);
    FairStep(w1, SendState);
    FairStep(Step(w1, SendState), Open(1));
    FairStep(w2, SendAck);
    FairStep(Step(w2, SendAck), DeliverAck(0));
  }

  // ---- a circle and half a circle ahead --------------------------------------------

  function ZeroThenOnes(n: nat): (bytes: seq<byte>)
    ensures |bytes| == n + 1
  {
    seq(n + 1, i => if i == 0 then 0 else 1)
  }

  /** With a circle and one packet in flight the last of them, though nothing is late, is taken for the first. */
  lemma CircleAheadMixes(first: u16, n: nat)
    requires n == CIRCLE
    ensures var w := Pumped(first, ZeroThenOnes(n));
      && FairlyReachable(w) && |w.s.inFlight| == CIRCLE + 1
      && var r := Step(w, Deliver(n)).r;
      && r.Some? && w.read == [] && r.value.inbox == [1] && !(r.value.inbox <= w.written)
  {
    var bytes := ZeroThenOnes(n);
    var w := Pumped(first, bytes);
    PumpedIsReached(first, bytes);
    AheadOfNumbers(first, n, -1);
    AheadOne(Number(first, n), w.r.value.ackNr);
    assert w.sent[n] == Packet(false, [1]);
    assert bytes[0] == 0 && bytes[n] == 1;
    assert [] + [1] == [1];
  }

  /** Half a circle can be in flight, and then acknowledgements no longer count. */
  lemma HalfCircleIsReached(first: u16, bytes: seq<byte>)
    requires 0x8000 <= |bytes| < CIRCLE
    ensures FairlyReachable(Pumped(first, bytes)) && Stalled(Pumped(first, bytes))
  {
    PumpedIsReached(first, bytes);
  }
}
