/** A stream of bytes from one end of a uTP connection to the other, over a network that loses, repeats and reorders
    packets (src/utp/conn.rs). */
module UtpStream {
  import opened Numbers
  import opened Bytes
  import opened UtpReceiving
  import opened UtpSending

  // ---- the machine -----------------------------------------------------------------

  /** The writing end, the reading end once it is open, and what has passed between them: the packets sent, of which
      `acked` are acknowledged; the bytes written and read; which packet the reading end first expected, and which it
      expects now; and, for each state packet and each acknowledgement sent, how many packets there were before it. */
  datatype World = World(s: Sender, r: Option<Receiver>, first: u16, sent: seq<Packet>, acked: nat, written: seq<byte>,
                         read: seq<byte>, from: nat, taken: nat, states: seq<nat>, acks: seq<nat>)

  /** What may happen, in any order: packets that were sent arrive, any number of times or never. A connection request
      may come again, which acknowledges number 0 as every packet of an end that has heard nothing does; a reset may
      come; and the writing end may give up or be done. A reading end that has ended is one that nothing reaches. */
  datatype Action =
    | Write(data: seq<byte>)
    | Close
    | SendNext
    | SendClose
    | SendState
    | Open(state: nat)
    | Deliver(packet: nat)
    | SendAck
    | DeliverAck(ack: nat)
    | Request
    | Reset
    | End
    | Read(count: nat)

  function Start(first: u16): World {
    World(Sender(first, [], [], false, false, false, false), None, first, [], 0, [], [], 0, 0, [], [])
  }

  /** One step; a step that cannot be taken changes nothing. */
  function Step(w: World, a: Action): World {
    match a
    case Write(data) =>
      w.(s := WriteTo(w.s, data), written := w.written + data[..Min(|data|, Writable(w.s))])
    case Close => w.(s := w.s.(finPending := true))
    case SendNext => if HasData(w.s) then w.(s := SendData(w.s), sent := w.sent + [NextData(w.s)]) else w
    case SendClose => if MayClose(w.s) then w.(s := SendFin(w.s), sent := w.sent + [Packet(true, [])]) else w
    case SendState => w.(states := w.states + [|w.sent|])
    case Open(k) =>
      if w.r.Some? || k >= |w.states| then w
      else w.(r := Some(Opened(NumberBefore(w.first, w.states[k]))), from := w.states[k], taken := w.states[k])
    case Deliver(i) =>
      if w.r.None? || i >= |w.sent| then w
      else
        w.(r := Some(Receive(w.r.value, Number(w.first, i), w.sent[i])),
           taken := w.taken + ReceiveCount(w.r.value, Number(w.first, i), w.sent[i]))
    case SendAck => if w.r.None? then w else w.(acks := w.acks + [w.taken])
    case DeliverAck(k) => if k >= |w.acks| then w else Heard(w, HearAck(w.s, NumberBefore(w.first, w.acks[k])))
    case Request => Heard(w, HearAck(w.s, 0))
    case Reset => Heard(w, HearReset(w.s))
    case End => w.(s := w.s.(ended := true))
    case Read(n) =>
      if w.r.None? then w
      else w.(r := Some(ReadOut(w.r.value, n)), read := w.read + w.r.value.inbox[..Min(n, |w.r.value.inbox|)])
  }

  /** The number of the last of the first `n` packets. */
  function NumberBefore(first: u16, n: nat): u16 {
    Number(first, n - 1)
  }

  function Heard(w: World, s: Sender): World {
    w.(s := s, acked := Max(|w.sent| - |s.inFlight|, 0))
  }

  function Run(w: World, actions: seq<Action>): World
    decreases |actions|
  {
    if actions == [] then w else Run(Step(w, actions[0]), actions[1..])
  }

  /** A packet that arrives is not taken for another: its number does not stand for a place in the window that is not
      its own. */
  predicate InPlace(w: World, a: Action) {
    a.Deliver? && w.r.Some? && a.packet < |w.sent| ==> Placed(a.packet, w.taken)
  }

  predicate AllInPlace(w: World, actions: seq<Action>)
    decreases |actions|
  {
    actions == [] || (InPlace(w, actions[0]) && AllInPlace(Step(w, actions[0]), actions[1..]))
  }

  ghost predicate Reachable(w: World) {
    exists actions :: AllInPlace(Start(w.first), actions) && w == Run(Start(w.first), actions)
  }

  // ---- what every run keeps --------------------------------------------------------

  ghost predicate Sound(w: World) {
    && Backs(w.s, w.first, w.sent, w.acked, w.written)
    && (forall k :: 0 <= k < |w.states| ==> w.states[k] <= |w.sent|)
    && (forall k :: 0 <= k < |w.acks| ==> w.acks[k] <= w.taken)
    && w.taken <= |w.sent|
    && match w.r
       case None => w.from == w.taken == 0 && w.read == []
       case Some(r) => Tracks(r, w.first, w.sent, w.from, w.taken, w.read)
  }

  lemma StartIsSound(first: u16)
    ensures Sound(Start(first))
  {
  }

  lemma SendKeeps(w: World, p: Packet)
    requires Sound(w) && !Closes(w.sent)
    ensures w.r.Some? ==> Tracks(w.r.value, w.first, w.sent + [p], w.from, w.taken, w.read)
  {
    if w.r.Some? {
      TracksGrow(w.r.value, w.first, w.sent, w.from, w.taken, w.read, p);
    }
  }

  lemma DeliverKeeps(w: World, i: nat)
    requires Sound(w) && InPlace(w, Deliver(i))
    ensures Sound(Step(w, Deliver(i)))
  {
    if w.r.Some? && i < |w.sent| {
      ReceiveTracks(w.r.value, w.first, w.sent, w.from, w.taken, w.read, i);
    }
  }

  /** Whatever number is acknowledged. */
  lemma AckKeeps(w: World, ack: u16)
    requires Sound(w)
    ensures Sound(Heard(w, HearAck(w.s, ack)))
  {
    AcknowledgeBacks(w.s, w.first, w.sent, w.acked, w.written, ack);
  }

  lemma SendNextKeeps(w: World)
    requires Sound(w)
    ensures Sound(Step(w, SendNext)) && Sound(Step(w, SendClose))
  {
    if HasData(w.s) {
      SendDataBacks(w.s, w.first, w.sent, w.acked, w.written);
      SendKeeps(w, NextData(w.s));
    }
    if MayClose(w.s) {
      SendFinBacks(w.s, w.first, w.sent, w.acked, w.written);
      SendKeeps(w, Packet(true, []));
    }
  }

  lemma OpenKeeps(w: World, k: nat)
    requires Sound(w)
    ensures Sound(Step(w, Open(k)))
  {
    if w.r.None? && k < |w.states| {
      OpenedTracks(w.first, w.sent, w.states[k]);
    }
  }

  lemma ReadKeeps(w: World, n: nat)
    requires Sound(w)
    ensures Sound(Step(w, Read(n)))
  {
    if w.r.Some? {
      ReadOutTracks(w.r.value, w.first, w.sent, w.from, w.taken, w.read, n);
    }
  }

  lemma WriterKeeps(w: World, a: Action)
    requires Sound(w) && (a.Write? || a.Close? || a.End? || a.Reset?)
    ensures Sound(Step(w, a))
  {
    if a.Write? {
      WriteBacks(w.s, w.first, w.sent, w.acked, w.written, a.data);
    }
  }

  lemma SendKeepsSound(w: World, a: Action)
    requires Sound(w) && (a.SendState? || a.SendAck?)
    ensures Sound(Step(w, a))
  {
  }

  /** Every step of either end and of the network. */
  lemma StepKeepsSound(w: World, a: Action)
    requires Sound(w) && InPlace(w, a)
    ensures Sound(Step(w, a))
  {
    match a
    case SendNext => SendNextKeeps(w);
    case SendClose => SendNextKeeps(w);
    case SendState => SendKeepsSound(w, a);
    case SendAck => SendKeepsSound(w, a);
    case Open(k) => OpenKeeps(w, k);
    case Deliver(i) => DeliverKeeps(w, i);
    case DeliverAck(k) => if k < |w.acks| { AckKeeps(w, NumberBefore(w.first, w.acks[k])); }
    case Request => AckKeeps(w, 0);
    case Read(n) => ReadKeeps(w, n);
    case _ => WriterKeeps(w, a);
  }

  lemma {:induction false} RunKeepsSound(w: World, actions: seq<Action>)
    requires Sound(w) && AllInPlace(w, actions)
    ensures Sound(Run(w, actions))
    decreases |actions|
  {
    if actions != [] {
      StepKeepsSound(w, actions[0]);
      RunKeepsSound(Step(w, actions[0]), actions[1..]);
    }
  }

  lemma ReachableIsSound(w: World)
    requires Reachable(w)
    ensures Sound(w)
  {
    var actions :| AllInPlace(Start(w.first), actions) && w == Run(Start(w.first), actions);
    StartIsSound(w.first);
    RunKeepsSound(Start(w.first), actions);
  }

  // ---- what is read ----------------------------------------------------------------

  lemma {:induction false} PayloadsSplit(sent: seq<Packet>, k: nat)
    requires k <= |sent|
    ensures Payloads(sent) == Payloads(sent[..k]) + Payloads(sent[k..])
    decreases |sent|
  {
    if k == |sent| {
      assert sent[..k] == sent && sent[k..] == [];
    } else {
      var front, last := sent[..|sent| - 1], sent[|sent| - 1];
      PayloadsSplit(front, k);
      assert front[..k] == sent[..k] && front[k..] == sent[k..][..|sent| - k - 1];
      Assoc3(Payloads(sent[..k]), Payloads(front[k..]), last.payload);
    }
  }

  /** The bytes of the packets sent before the reading end was open to them. */
  function Missed(w: World): seq<byte>
    requires w.from <= |w.sent|
  {
    Payloads(w.sent[..w.from])
  }

  /** That is none exactly when no packet with bytes was sent before the state packet that opened the connection. */
  lemma NothingMissed(w: World)
    requires Reachable(w)
    ensures w.from <= |w.sent| && (Missed(w) == [] <==> forall i :: 0 <= i < w.from ==> w.sent[i].fin)
  {
    ReachableIsSound(w);
    NoneCarried(w.sent[..w.from]);
    assert forall i :: 0 <= i < w.from ==> w.sent[..w.from][i] == w.sent[i];
  }

  lemma {:induction false} NoneCarried(sent: seq<Packet>)
    ensures Payloads(sent) == [] <==> forall i :: 0 <= i < |sent| ==> sent[i].payload == []
  {
    if sent != [] {
      NoneCarried(sent[..|sent| - 1]);
      assert |Payloads(sent)| == |Payloads(sent[..|sent| - 1])| + |sent[|sent| - 1].payload|;
    }
  }

  /** In every run, whatever is lost, repeated or reordered, what has come is what was written, in order, from where the
      reading end opened: nothing twice, nothing out of place, no gap. */
  lemma ReadInOrder(w: World)
    requires Reachable(w) && w.r.Some?
    ensures w.from <= |w.sent| && Missed(w) + (w.read + w.r.value.inbox) <= w.written
  {
    ReachableIsSound(w);
    var sent, n := w.sent, w.taken;
    PayloadsSplit(sent, n);
    PayloadsSplit(sent[..n], w.from);
    assert sent[..n][..w.from] == sent[..w.from] && sent[..n][w.from..] == sent[w.from..n];
    Assoc3(Payloads(sent[..n]), Payloads(sent[n..]), w.s.outbox);
  }

  /** So where no packet with bytes was sent before the state packet that opened the connection, what is read is a
      prefix of what was written. */
  lemma ReadIsPrefix(w: World)
    requires Reachable(w) && w.r.Some? && w.from <= |w.sent| && Missed(w) == []
    ensures w.read <= w.written
  {
    ReadInOrder(w);
    assert [] + (w.read + w.r.value.inbox) == w.read + w.r.value.inbox;
  }

  /** At the end of the stream everything has been read, exactly when nothing was missed. */
  lemma EofIsAll(w: World)
    requires Reachable(w) && w.r.Some? && w.r.value.peerClosed && w.r.value.inbox == []
    ensures w.from <= |w.sent| && w.s.finSent
    ensures w.read == w.written <==> Missed(w) == []
  {
    ReachableIsSound(w);
    PayloadsSplit(w.sent, w.from);
    assert w.sent[w.from..w.taken] == w.sent[w.from..];
    assert w.read + [] == w.read && Payloads(w.sent) + [] == Payloads(w.sent);
  }

  /** What is not acknowledged carries no bytes once all that do are. */
  lemma FlushedCarriesNone(s: Sender, first: u16, sent: seq<Packet>, acked: nat, n: nat)
    requires InFlight(s.inFlight, first, sent, acked) && IsFlushed(s) && acked <= n <= |sent|
    requires forall i :: 0 <= i < |sent| ==> (sent[i].fin <==> sent[i].payload == [])
    ensures Payloads(sent[n..]) == []
  {
    forall i | 0 <= i < |sent[n..]| ensures sent[n..][i].payload == [] {
      assert s.inFlight[n + i - acked] == Sent(Number(first, n + i), sent[n + i]);
    }
    NoneCarried(sent[n..]);
  }

  lemma NothingAfter(sent: seq<Packet>, from: nat, n: nat)
    requires from <= n <= |sent| && Payloads(sent[n..]) == []
    ensures Payloads(sent[from..n]) == Payloads(sent[from..])
  {
    PayloadsSplit(sent[from..], n - from);
    assert sent[from..][..n - from] == sent[from..n] && sent[from..][n - from..] == sent[n..];
  }

  lemma SameIfNoneBefore(before: seq<byte>, after: seq<byte>)
    ensures after == before + after <==> before == []
  {
    assert |before + after| == |before| + |after|;
  }

  // ---- what is acknowledged --------------------------------------------------------

  /** What is acknowledged has come. */
  predicate Came(w: World) {
    w.acked <= w.taken
  }

  /** Nothing lets go of a packet that it does not cover: an acknowledgement covers one that is in flight or is refused,
      a repeated request is refused, and a reset finds nothing in flight. */
  predicate Fair(w: World, a: Action) {
    match a
    case DeliverAck(k) =>
      k < |w.acks| ==> w.acked < w.acks[k] || Refuses(w.s, NumberBefore(w.first, w.acks[k]))
    case Request => Refuses(w.s, 0)
    case Reset => w.s.ended || w.s.inFlight == []
    case _ => true
  }

  predicate AllFair(w: World, actions: seq<Action>)
    decreases |actions|
  {
    actions == [] || (Fair(w, actions[0]) && AllFair(Step(w, actions[0]), actions[1..]))
  }

  ghost predicate FairlyReachable(w: World) {
    exists actions ::
      AllInPlace(Start(w.first), actions) && AllFair(Start(w.first), actions) && w == Run(Start(w.first), actions)
  }

  lemma CameByAck(w: World, k: nat)
    requires Sound(w) && Came(w)
    ensures Fair(w, DeliverAck(k)) ==> Came(Step(w, DeliverAck(k)))
    ensures w.acked == w.taken ==> (Came(Step(w, DeliverAck(k))) <==> Fair(w, DeliverAck(k)))
  {
    if k < |w.acks| {
      FairExactly(w.s, w.first, w.sent, w.acked, w.written, w.acks[k]);
    }
  }

  lemma CameByRequest(w: World)
    requires Sound(w) && Came(w)
    ensures Fair(w, Request) ==> Came(Step(w, Request))
    ensures w.acked == w.taken ==> (Came(Step(w, Request)) <==> Fair(w, Request))
  {
    RefusedExactly(w.s, 0);
  }

  lemma CameByRest(w: World, a: Action)
    requires Came(w) && !(a.DeliverAck? || a.Request? || a.Reset?) && (w.r.None? ==> w.taken == 0)
    ensures Came(Step(w, a))
  {
  }

  /** Every fair step keeps what is acknowledged among what has come; and where all that has come is acknowledged, no
      other step does. */
  lemma FairKeepsCame(w: World, a: Action)
    requires Sound(w) && Came(w)
    ensures Fair(w, a) ==> Came(Step(w, a))
    ensures w.acked == w.taken ==> (Came(Step(w, a)) <==> Fair(w, a))
  {
    match a
    case DeliverAck(k) => CameByAck(w, k);
    case Request => CameByRequest(w);
    case Reset =>
    case _ => CameByRest(w, a);
  }

  lemma {:induction false} FairRunKeepsCame(w: World, actions: seq<Action>)
    requires Sound(w) && Came(w) && AllInPlace(w, actions) && AllFair(w, actions)
    ensures Came(Run(w, actions))
    decreases |actions|
  {
    if actions != [] {
      StepKeepsSound(w, actions[0]);
      FairKeepsCame(w, actions[0]);
      FairRunKeepsCame(Step(w, actions[0]), actions[1..]);
    }
  }

  /** What is acknowledged has arrived: in every fair run, once every byte written is, they have all come, exactly when
      nothing was missed. */
  lemma FlushedIsReceived(w: World)
    requires FairlyReachable(w) && w.r.Some? && IsFlushed(w.s)
    ensures w.from <= |w.sent| && w.read + w.r.value.inbox == Payloads(w.sent[w.from..])
    ensures w.read + w.r.value.inbox == w.written <==> Missed(w) == []
  {
    var actions :|
      AllInPlace(Start(w.first), actions) && AllFair(Start(w.first), actions) && w == Run(Start(w.first), actions);
    StartIsSound(w.first);
    FairRunKeepsCame(Start(w.first), actions);
    ReachableIsSound(w);
    FlushedCarriesNone(w.s, w.first, w.sent, w.acked, w.taken);
    NothingAfter(w.sent, w.from, w.taken);
    PayloadsSplit(w.sent, w.from);
    SameIfNoneBefore(Missed(w), Payloads(w.sent[w.from..]));
    assert Payloads(w.sent) + [] == Payloads(w.sent);
  }

  lemma AllCameFlushes(w: World)
    requires Sound(w) && w.r.Some? && w.acked == w.taken && w.read + w.r.value.inbox == w.written
    ensures IsFlushed(w.s)
  {
    PayloadsSplit(w.sent, w.taken);
    PayloadsSplit(w.sent[..w.taken], w.from);
    assert w.sent[..w.taken][..w.from] == w.sent[..w.from] && w.sent[..w.taken][w.from..] == w.sent[w.from..w.taken];
    assert |w.written| == |Payloads(w.sent[..w.taken])| + |Payloads(w.sent[w.taken..])| + |w.s.outbox|;
    NoneCarried(w.sent[w.taken..]);
    forall k | 0 <= k < |w.s.inFlight| ensures w.s.inFlight[k].packet.fin {
      assert w.s.inFlight[k].packet == w.sent[w.taken..][k];
    }
  }

  /** A request or a reset that leaves nothing unacknowledged, where nothing has come that was not: then all bytes have
      come exactly when it was so before. */
  lemma WronglyFlushed(w: World, a: Action)
    requires FairlyReachable(w) && w.r.Some? && w.from <= |w.sent| && Missed(w) == [] && w.acked == w.taken
    requires (a.Request? || a.Reset?) && IsFlushed(Step(w, a).s)
    ensures var v := Step(w, a); v.r == w.r && (v.read + w.r.value.inbox == v.written <==> IsFlushed(w.s))
  {
    ReachableIsSound(w);
    if IsFlushed(w.s) {
      FlushedIsReceived(w);
    }
    if w.read + w.r.value.inbox == w.written {
      AllCameFlushes(w);
    }
  }

  // ---- what keeps a run in place and fair ------------------------------------------

  /** What the two ends and the network can see to: at most a circle in flight, no packet a circle late, no
      acknowledgement from before the last circle, no request while it would be heeded, no reset while anything is in
      flight. */
  predicate Modest(w: World, a: Action) {
    match a
    case SendNext => |w.s.inFlight| < CIRCLE
    case SendClose => |w.s.inFlight| < CIRCLE
    case Deliver(i) => w.taken <= i + (CIRCLE - REORDER_WINDOW)
    case DeliverAck(k) => k < |w.acks| ==> w.acked < w.acks[k] + 0x8000 || |w.sent| < w.acks[k] + CIRCLE
    case Request => Refuses(w.s, 0)
    case Reset => w.s.ended || w.s.inFlight == []
    case _ => true
  }

  predicate AllModest(w: World, actions: seq<Action>)
    decreases |actions|
  {
    actions == [] || (Modest(w, actions[0]) && AllModest(Step(w, actions[0]), actions[1..]))
  }

  lemma ModestAck(w: World, k: nat)
    requires Sound(w) && |w.s.inFlight| <= CIRCLE && Modest(w, DeliverAck(k))
    ensures Fair(w, DeliverAck(k)) && |Step(w, DeliverAck(k)).s.inFlight| <= CIRCLE
  {
    if k < |w.acks| {
      RecentIsFair(w.s, w.first, w.sent, w.acked, w.written, w.acks[k]);
      AcknowledgeBacks(w.s, w.first, w.sent, w.acked, w.written, NumberBefore(w.first, w.acks[k]));
    }
  }

  lemma ModestStep(w: World, a: Action)
    requires Sound(w) && Came(w) && |w.s.inFlight| <= CIRCLE && Modest(w, a)
    ensures InPlace(w, a) && Fair(w, a) && |Step(w, a).s.inFlight| <= CIRCLE
  {
    match a
    case Deliver(i) => NearIsPlaced(i, w.taken);
    case DeliverAck(k) => ModestAck(w, k);
    case Request => RefusedExactly(w.s, 0);
    case _ =>
  }

  /** So every result above holds of every such run. */
  lemma {:induction false} ModestRuns(w: World, actions: seq<Action>)
    requires Sound(w) && Came(w) && |w.s.inFlight| <= CIRCLE && AllModest(w, actions)
    ensures AllInPlace(w, actions) && AllFair(w, actions)
    decreases |actions|
  {
    if actions != [] {
      ModestStep(w, actions[0]);
      StepKeepsSound(w, actions[0]);
      FairKeepsCame(w, actions[0]);
      ModestRuns(Step(w, actions[0]), actions[1..]);
    }
  }

  // ---- half a circle ahead ---------------------------------------------------------

  /** All but sending, and packets, requests and resets arriving. */
  predicate Idle(a: Action) {
    !(a.SendNext? || a.SendClose? || a.Deliver? || a.Open? || a.Request? || a.Reset?)
  }

  /** Half a circle of packets or more that have not come, and no acknowledgement from before the last circle. */
  predicate Stalled(w: World) {
    && w.taken + 0x8000 <= |w.sent| < w.taken + CIRCLE
    && forall k :: 0 <= k < |w.acks| ==> |w.sent| < w.acks[k] + CIRCLE
  }

  lemma StalledAck(w: World, k: nat)
    requires Sound(w) && Stalled(w)
    ensures Step(w, DeliverAck(k)).s == w.s
  {
    if k < |w.acks| {
      FarIsRefused(w.s, w.first, w.sent, w.acked, w.acks[k]);
      RefusedExactly(w.s, NumberBefore(w.first, w.acks[k]));
    }
  }

  lemma StalledStep(w: World, a: Action)
    requires Sound(w) && Stalled(w) && Idle(a)
    ensures Stalled(Step(w, a)) && Step(w, a).s.inFlight == w.s.inFlight
  {
    if a.DeliverAck? {
      StalledAck(w, a.ack);
    }
  }

  /** Then no acknowledgement lets go of anything, those of what has come since included, until more packets come. */
  lemma {:induction false} HalfCircleStalls(w: World, actions: seq<Action>)
    requires Sound(w) && Stalled(w) && forall i :: 0 <= i < |actions| ==> Idle(actions[i])
    ensures Run(w, actions).s.inFlight == w.s.inFlight
    decreases |actions|
  {
    if actions != [] {
      StalledStep(w, actions[0]);
      StepKeepsSound(w, actions[0]);
      HalfCircleStalls(Step(w, actions[0]), actions[1..]);
    }
  }
}
