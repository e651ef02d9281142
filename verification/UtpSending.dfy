/** The sending half of a uTP connection (src/utp/conn.rs): what is written is cut into packets, numbered round the
    circle, and kept until it is acknowledged. */
module UtpSending {
  import opened Numbers
  import opened Bytes
  import opened UtpReceiving

  const SEND_BUFFER: int := 262144

  const MAX_PAYLOAD: int := 1380

  datatype Sent = Sent(number: u16, packet: Packet)

  /** The fields of a connection that sending is about. */
  datatype Sender = Sender(seqNr: u16, outbox: seq<byte>, inFlight: seq<Sent>, finPending: bool, finSent: bool,
                           finAcked: bool, ended: bool)

  // ---- the steps -------------------------------------------------------------------

  function BytesInFlight(inFlight: seq<Sent>): nat {
    if inFlight == [] then 0 else |inFlight[0].packet.payload| + BytesInFlight(inFlight[1..])
  }

  /** How many bytes `write` would take. */
  function Writable(s: Sender): nat {
    if s.ended || s.finPending then 0 else Max(SEND_BUFFER - (|s.outbox| + BytesInFlight(s.inFlight)), 0)
  }

  function WriteTo(s: Sender, data: seq<byte>): Sender {
    s.(outbox := s.outbox + data[..Min(|data|, Writable(s))])
  }

  /** A packet goes out under the next number. */
  function Emit(s: Sender, p: Packet): Sender {
    s.(inFlight := s.inFlight + [Sent(s.seqNr, p)], seqNr := Number(s.seqNr, 1))
  }

  predicate HasData(s: Sender) {
    !s.ended && s.outbox != []
  }

  function NextData(s: Sender): Packet {
    Packet(false, s.outbox[..Min(|s.outbox|, MAX_PAYLOAD)])
  }

  function SendData(s: Sender): Sender {
    Emit(s.(outbox := s.outbox[Min(|s.outbox|, MAX_PAYLOAD)..]), NextData(s))
  }

  predicate MayClose(s: Sender) {
    !s.ended && s.finPending && !s.finSent && s.outbox == []
  }

  function SendFin(s: Sender): Sender {
    Emit(s.(finSent := true), Packet(true, []))
  }

  /** `seq_le`: not after, round the circle. */
  predicate SeqLe(a: u16, b: u16) {
    Ahead(b, a) < 0x8000
  }

  function PopAcked(inFlight: seq<Sent>, ack: u16): (left: seq<Sent>)
    ensures |left| <= |inFlight|
  {
    if inFlight != [] && SeqLe(inFlight[0].number, ack) then PopAcked(inFlight[1..], ack) else inFlight
  }

  predicate HasFin(packets: seq<Sent>) {
    exists k :: 0 <= k < |packets| && packets[k].packet.fin
  }

  lemma FinAmong(packets: seq<Sent>, k: nat)
    requires k < |packets|
    ensures HasFin(packets[..k + 1]) <==> HasFin(packets[..k]) || packets[k].packet.fin
  {
    if j :| 0 <= j < k && packets[..k][j].packet.fin {
      assert packets[..k + 1][j].packet.fin;
    }
    assert packets[..k + 1][k] == packets[k];
  }

  lemma PoppedAre(all: seq<Sent>, k: nat, ack: u16)
    requires k <= |all| && PopAcked(all[k..], ack) == PopAcked(all, ack)
    requires k < |all| ==> !SeqLe(all[k].number, ack)
    ensures PopAcked(all, ack) == all[k..] && all[..|all| - |PopAcked(all, ack)|] == all[..k]
  {
  }

  /** The part of `process_ack` that lets go of packets. */
  function Acknowledge(s: Sender, ack: u16): Sender {
    if s.inFlight != [] && !SeqLe(ack, Ahead(s.seqNr, 1)) then s
    else
      var left := PopAcked(s.inFlight, ack);
      var gone := s.inFlight[..|s.inFlight| - |left|];
      s.(inFlight := left, finAcked := s.finAcked || HasFin(gone))
  }

  /** A packet that acknowledges `ack` comes; once ended, nothing is heard. */
  function HearAck(s: Sender, ack: u16): Sender {
    if s.ended then s else Acknowledge(s, ack)
  }

  /** The peer knows nothing of the connection: what is in flight is forgotten. */
  function HearReset(s: Sender): Sender {
    if s.ended then s else s.(inFlight := [], ended := true)
  }

  /** An acknowledgement that lets go of nothing: all is acknowledged, or it is of what was never sent, or of nothing
      that is in flight. */
  predicate Refuses(s: Sender, ack: u16) {
    s.ended || s.inFlight == [] || !SeqLe(ack, Ahead(s.seqNr, 1)) || !SeqLe(s.inFlight[0].number, ack)
  }

  lemma RefusedExactly(s: Sender, ack: u16)
    ensures HearAck(s, ack) == s <==> Refuses(s, ack)
    ensures !Refuses(s, ack) ==> |HearAck(s, ack).inFlight| < |s.inFlight|
  {
  }

  /** What `is_flushed` takes for every byte written having been acknowledged. */
  predicate IsFlushed(s: Sender) {
    s.outbox == [] && forall k :: 0 <= k < |s.inFlight| ==> s.inFlight[k].packet.fin
  }

  // ---- what it has of what was written ---------------------------------------------

  /** What is in flight is what was sent and is not acknowledged, under its own numbers. */
  ghost predicate InFlight(inFlight: seq<Sent>, first: u16, sent: seq<Packet>, acked: nat) {
    && acked + |inFlight| == |sent|
    && forall k :: 0 <= k < |inFlight| ==> inFlight[k] == Sent(Number(first, acked + k), sent[acked + k])
  }

  /** Packets carry what was written, in order; the last of them may close. */
  ghost predicate Carries(s: Sender, sent: seq<Packet>, written: seq<byte>) {
    && Payloads(sent) + s.outbox == written
    && FinLast(sent) && (forall i :: 0 <= i < |sent| ==> (sent[i].fin <==> sent[i].payload == []))
    && (s.finSent <==> Closes(sent)) && (s.finSent ==> s.finPending && s.outbox == [])
  }

  ghost predicate Backs(s: Sender, first: u16, sent: seq<Packet>, acked: nat, written: seq<byte>) {
    && s.seqNr == Number(first, |sent|) && InFlight(s.inFlight, first, sent, acked) && Carries(s, sent, written)
    && (s.finAcked ==> Closes(sent) && acked == |sent|)
  }

  lemma WriteBacks(s: Sender, first: u16, sent: seq<Packet>, acked: nat, written: seq<byte>, data: seq<byte>)
    requires Backs(s, first, sent, acked, written)
    ensures Backs(WriteTo(s, data), first, sent, acked, written + data[..Min(|data|, Writable(s))])
  {
    Assoc3(Payloads(sent), s.outbox, data[..Min(|data|, Writable(s))]);
    if s.finPending {
      assert data[..0] == [] && s.outbox + [] == s.outbox && written + [] == written;
    }
  }

  lemma PayloadsSnoc(sent: seq<Packet>, p: Packet)
    ensures Payloads(sent + [p]) == Payloads(sent) + p.payload
  {
    assert (sent + [p])[..|sent|] == sent;
  }

  lemma EmitInFlight(s: Sender, first: u16, sent: seq<Packet>, acked: nat, p: Packet)
    requires s.seqNr == Number(first, |sent|) && InFlight(s.inFlight, first, sent, acked)
    ensures Emit(s, p).seqNr == Number(first, |sent| + 1) && InFlight(Emit(s, p).inFlight, first, sent + [p], acked)
  {
    NextNumber(first, |sent|);
  }

  lemma SendDataBacks(s: Sender, first: u16, sent: seq<Packet>, acked: nat, written: seq<byte>)
    requires Backs(s, first, sent, acked, written) && HasData(s)
    ensures NextData(s).payload != [] && Backs(SendData(s), first, sent + [NextData(s)], acked, written)
  {
    var p, n := NextData(s), Min(|s.outbox|, MAX_PAYLOAD);
    EmitInFlight(s.(outbox := s.outbox[n..]), first, sent, acked, p);
    PayloadsSnoc(sent, p);
    Assoc3(Payloads(sent), s.outbox[..n], s.outbox[n..]);
    assert s.outbox == s.outbox[..n] + s.outbox[n..];
  }

  lemma SendFinBacks(s: Sender, first: u16, sent: seq<Packet>, acked: nat, written: seq<byte>)
    requires Backs(s, first, sent, acked, written) && MayClose(s)
    ensures Backs(SendFin(s), first, sent + [Packet(true, [])], acked, written)
  {
    var p := Packet(true, []);
    EmitInFlight(s.(finSent := true), first, sent, acked, p);
    PayloadsSnoc(sent, p);
    assert Payloads(sent) + [] == Payloads(sent);
  }

  // ---- acknowledgements ------------------------------------------------------------

  /** Whatever number is acknowledged, packets are let go of from the front. */
  lemma {:induction false} PopInFlight(inFlight: seq<Sent>, first: u16, sent: seq<Packet>, acked: nat, ack: u16)
    requires InFlight(inFlight, first, sent, acked)
    ensures InFlight(PopAcked(inFlight, ack), first, sent, |sent| - |PopAcked(inFlight, ack)|)
    decreases |inFlight|
  {
    if inFlight != [] && SeqLe(inFlight[0].number, ack) {
      PopInFlight(inFlight[1..], first, sent, acked + 1, ack);
    }
  }

  lemma AcknowledgeBacks(s: Sender, first: u16, sent: seq<Packet>, acked: nat, written: seq<byte>, ack: u16)
    requires Backs(s, first, sent, acked, written)
    ensures var s' := HearAck(s, ack);
      |s'.inFlight| <= |s.inFlight| && Backs(s', first, sent, |sent| - |s'.inFlight|, written)
  {
    PopInFlight(s.inFlight, first, sent, acked, ack);
    var left := PopAcked(s.inFlight, ack);
    var gone := s.inFlight[..|s.inFlight| - |left|];
    if k :| 0 <= k < |gone| && gone[k].packet.fin {
      assert s.inFlight[k] == Sent(Number(first, acked + k), sent[acked + k]);
    }
  }

  lemma LastNumber(first: u16, n: nat)
    ensures Ahead(Number(first, n), 1) == Number(first, n - 1)
  {
    NextNumber(first, n - 1);
  }

  /** What the two tests of `process_ack` come to for an acknowledgement of the first `m` packets. */
  lemma TestsOf(s: Sender, first: u16, sent: seq<Packet>, acked: nat, m: nat)
    requires s.seqNr == Number(first, |sent|) && InFlight(s.inFlight, first, sent, acked) && s.inFlight != []
    ensures SeqLe(Number(first, m - 1), Ahead(s.seqNr, 1)) <==> (|sent| - m) % CIRCLE < 0x8000
    ensures SeqLe(s.inFlight[0].number, Number(first, m - 1)) <==> (m - 1 - acked) % CIRCLE < 0x8000
  {
    LastNumber(first, |sent|);
    AheadOfNumbers(first, |sent| - 1, m - 1);
    AheadOfNumbers(first, m - 1, acked);
    assert s.inFlight[0] == Sent(Number(first, acked), sent[acked]);
  }

  /** Whether the packet at the front is let go of. */
  lemma FrontTest(inFlight: seq<Sent>, first: u16, sent: seq<Packet>, acked: nat, m: nat)
    requires InFlight(inFlight, first, sent, acked) && inFlight != [] && acked <= m
    ensures acked < m <= acked + 0x8000 ==> SeqLe(inFlight[0].number, Number(first, m - 1))
    ensures m == acked || acked + 0x8000 < m <= acked + CIRCLE ==> !SeqLe(inFlight[0].number, Number(first, m - 1))
  {
    AheadOfNumbers(first, m - 1, acked);
    assert inFlight[0] == Sent(Number(first, acked), sent[acked]);
  }

  /** One that covers more than before, by at most half a circle, lets go of just what it covers; by more, of
      nothing. */
  lemma {:induction false} PopsTo(inFlight: seq<Sent>, first: u16, sent: seq<Packet>, acked: nat, m: nat)
    requires InFlight(inFlight, first, sent, acked) && acked <= m <= |sent|
    ensures |sent| - |PopAcked(inFlight, Number(first, m - 1))| <= m
    ensures m <= acked + 0x8000 ==> |sent| - |PopAcked(inFlight, Number(first, m - 1))| == m
    ensures acked + 0x8000 < m <= acked + CIRCLE ==> PopAcked(inFlight, Number(first, m - 1)) == inFlight
    decreases |inFlight|
  {
    if inFlight != [] {
      FrontTest(inFlight, first, sent, acked, m);
      if acked < m && SeqLe(inFlight[0].number, Number(first, m - 1)) {
        PopsTo(inFlight[1..], first, sent, acked + 1, m);
      }
    }
  }

  /** An acknowledgement lets go of no packet past those it covers exactly when it covers one that is in flight, or is
      refused. */
  lemma FairExactly(s: Sender, first: u16, sent: seq<Packet>, acked: nat, written: seq<byte>, m: nat)
    requires Backs(s, first, sent, acked, written) && m <= |sent|
    ensures |sent| - |HearAck(s, Number(first, m - 1)).inFlight| <= Max(acked, m)
       <==> acked < m || Refuses(s, Number(first, m - 1))
  {
    RefusedExactly(s, Number(first, m - 1));
    if acked < m {
      PopsTo(s.inFlight, first, sent, acked, m);
    }
  }

  /** So does every one that is not both half a circle older than what is acknowledged and a whole circle older than
      what is sent. */
  lemma RecentIsFair(s: Sender, first: u16, sent: seq<Packet>, acked: nat, written: seq<byte>, m: nat)
    requires Backs(s, first, sent, acked, written) && (acked < m + 0x8000 || |sent| < m + CIRCLE)
    ensures acked < m || Refuses(s, Number(first, m - 1))
  {
    if m <= acked && s.inFlight != [] {
      TestsOf(s, first, sent, acked, m);
    }
  }

  /** One that leaves more than half a circle is refused. */
  lemma FarIsRefused(s: Sender, first: u16, sent: seq<Packet>, acked: nat, m: nat)
    requires s.seqNr == Number(first, |sent|) && InFlight(s.inFlight, first, sent, acked)
    requires m + 0x8000 <= |sent| < m + CIRCLE
    ensures Refuses(s, Number(first, m - 1))
  {
    if s.inFlight != [] {
      TestsOf(s, first, sent, acked, m);
    }
  }

  /** What the peer has truly taken is let go of exactly, or not at all: exactly when neither what it newly covers nor
      what it leaves is more than half a circle. */
  lemma AckCounts(s: Sender, first: u16, sent: seq<Packet>, acked: nat, written: seq<byte>, m: nat)
    requires Backs(s, first, sent, acked, written) && !s.ended && acked <= m <= |sent| && |s.inFlight| <= CIRCLE
    ensures |sent| - |HearAck(s, Number(first, m - 1)).inFlight|
         == if m <= acked + 0x8000 && |sent| < m + 0x8000 then m else acked
  {
    PopsTo(s.inFlight, first, sent, acked, m);
    if m + 0x8000 <= |sent| < m + CIRCLE {
      FarIsRefused(s, first, sent, acked, m);
      RefusedExactly(s, Number(first, m - 1));
    } else if s.inFlight != [] {
      TestsOf(s, first, sent, acked, m);
    }
  }

  /** With half a circle in flight at most, that is always. */
  lemma HalfCircleCounts(s: Sender, first: u16, sent: seq<Packet>, acked: nat, written: seq<byte>, m: nat)
    requires Backs(s, first, sent, acked, written) && !s.ended && acked <= m <= |sent| && |s.inFlight| <= 0x8000
    ensures |sent| - |HearAck(s, Number(first, m - 1)).inFlight| == m
  {
    AckCounts(s, first, sent, acked, written, m);
  }

  /** Round the circle from `front`, at most half of it, 0 is passed exactly when both tests let it through. */
  lemma ZeroAmong(front: u16, n: nat)
    requires 1 <= n <= 0x8000
    ensures SeqLe(0, Number(front, n - 1)) && SeqLe(front, 0) <==> (CIRCLE - front) % CIRCLE < n
  {
  }

  lemma ZeroAt(front: u16, k: nat)
    requires k < 0x8000
    ensures Number(front, k) == 0 <==> k == (CIRCLE - front) % CIRCLE
  {
  }

  /** With half a circle in flight at most, an acknowledgement of number 0, which is what a connection request carries,
      is refused exactly when no packet of that number is in flight. */
  lemma ZeroRefused(s: Sender, first: u16, sent: seq<Packet>, acked: nat, written: seq<byte>)
    requires Backs(s, first, sent, acked, written) && !s.ended && |s.inFlight| <= 0x8000
    ensures Refuses(s, 0) <==> forall k :: 0 <= k < |s.inFlight| ==> s.inFlight[k].number != 0
  {
    if s.inFlight != [] {
      var front, n := s.inFlight[0].number, |s.inFlight|;
      var at := (CIRCLE - front) % CIRCLE;
      LastInFlight(s, first, sent, acked, written);
      ZeroAmong(front, n);
      forall k | 0 <= k < n ensures s.inFlight[k].number == 0 <==> k == at {
        NumberInFlight(s.inFlight, first, sent, acked, k);
        ZeroAt(front, k);
      }
      if at < n {
        assert s.inFlight[at].number == 0;
      }
    }
  }

  lemma NumberInFlight(inFlight: seq<Sent>, first: u16, sent: seq<Packet>, acked: nat, k: nat)
    requires InFlight(inFlight, first, sent, acked) && k < |inFlight|
    ensures inFlight[k].number == Number(inFlight[0].number, k)
  {
    NumberFrom(first, acked, k);
  }

  lemma LastInFlight(s: Sender, first: u16, sent: seq<Packet>, acked: nat, written: seq<byte>)
    requires Backs(s, first, sent, acked, written) && s.inFlight != []
    ensures Ahead(s.seqNr, 1) == Number(s.inFlight[0].number, |s.inFlight| - 1)
  {
    LastNumber(first, |sent|);
    NumberInFlight(s.inFlight, first, sent, acked, |s.inFlight| - 1);
  }

  lemma NumberFrom(first: u16, i: nat, k: nat)
    ensures Number(Number(first, i), k) == Number(first, i + k)
  {
    var a := (first + i) / CIRCLE;
    assert Number(first, i) == first + i - CIRCLE * a;
    SameRemainder(Number(first, i) + k, first + i + k, -a);
  }
}
