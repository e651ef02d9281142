/** What does arrive over uTP (src/utp/conn.rs): packets within the window, in whatever order they come, are all taken;
    and how much may be written is what is not yet acknowledged. */
module UtpProgress {
  import opened Numbers
  import opened Bytes
  import opened UtpReceiving
  import opened UtpSending
  import opened UtpStream

  // ---- a packet that came is not lost ----------------------------------------------

  /** Packet `j` was taken in order, or waits under its own number. */
  ghost predicate HeldOrTaken(r: Receiver, first: u16, n: nat, j: nat) {
    j < n || Number(first, j) in r.reorder
  }

  lemma NumbersDiffer(first: u16, i: nat, j: nat)
    requires i < j < i + CIRCLE
    ensures Number(first, i) != Number(first, j)
  {
    AheadOfNumbers(first, j, i);
  }

  lemma {:induction false} DrainKeeps(r: Receiver, first: u16, n: nat, j: nat)
    requires r.ackNr == Number(first, n - 1) && j < n + REORDER_WINDOW && HeldOrTaken(r, first, n, j)
    ensures HeldOrTaken(Drain(r), first, n + DrainCount(r), j)
    decreases r.reorder.Keys
  {
    NextNumber(first, n - 1);
    if Number(r.ackNr, 1) in r.reorder {
      if n < j {
        NumbersDiffer(first, n, j);
      }
      DrainKeeps(TakeNext(r), first, n + 1, j);
    }
  }

  /** Whatever comes next. */
  lemma ReceiveKeeps(r: Receiver, first: u16, n: nat, j: nat, number: u16, p: Packet)
    requires r.ackNr == Number(first, n - 1) && j < n + REORDER_WINDOW && HeldOrTaken(r, first, n, j)
    ensures HeldOrTaken(Receive(r, number, p), first, n + ReceiveCount(r, number, p), j)
  {
    if 1 <= Ahead(number, r.ackNr) <= REORDER_WINDOW && |p.payload| <= Room(r) {
      NextNumber(first, n - 1);
      var noted := NoteFin(r, number, p.fin);
      if number == Number(r.ackNr, 1) {
        DrainKeeps(noted.(inbox := noted.inbox + p.payload, ackNr := number), first, n + 1, j);
      }
    }
  }

  /** A packet in the window that fits is taken or waits. */
  lemma ReceiveHolds(r: Receiver, first: u16, n: nat, i: nat, p: Packet)
    requires r.ackNr == Number(first, n - 1) && i < n + REORDER_WINDOW && |p.payload| <= Room(r)
    ensures HeldOrTaken(Receive(r, Number(first, i), p), first, n + ReceiveCount(r, Number(first, i), p), i)
  {
    if n <= i {
      AheadInWindow(first, i, n);
      NextNumber(first, n - 1);
    }
  }

  /** One past the window, up to where its number comes round again, is not. */
  lemma BeyondIsDropped(r: Receiver, first: u16, n: nat, i: nat, p: Packet)
    requires r.ackNr == Number(first, n - 1) && n + 64 <= i < n + 65536
    ensures Receive(r, Number(first, i), p) == r
  {
    AheadOfNumbers(first, i, n - 1);
  }

  // ---- in any order ----------------------------------------------------------------

  function Deliveries(order: seq<nat>): (actions: seq<Action>)
    ensures |actions| == |order|
  {
    seq(|order|, k requires 0 <= k < |order| => Deliver(order[k]))
  }

  /** There is room for each packet when it comes. */
  predicate AllFit(w: World, order: seq<nat>)
    requires w.r.Some?
    decreases |order|
  {
    || order == []
    || ((order[0] < |w.sent| ==> |w.sent[order[0]].payload| <= Room(w.r.value))
        && AllFit(Step(w, Deliver(order[0])), order[1..]))
  }

  /** Every packet up to `m` is taken, waits, or is still to come. */
  ghost predicate Expected(w: World, order: seq<nat>, m: nat)
    requires w.r.Some?
  {
    forall i :: w.taken <= i < m ==> HeldOrTaken(w.r.value, w.first, w.taken, i) || i in order
  }

  lemma ExpectedStep(w: World, order: seq<nat>, m: nat, j: nat)
    requires Sound(w) && w.r.Some? && m <= |w.sent| && m <= w.taken + REORDER_WINDOW && order != []
    requires Expected(w, order, m) && AllFit(w, order) && w.taken <= j < m
    ensures var w' := Step(w, Deliver(order[0]));
      w'.r.Some? && (HeldOrTaken(w'.r.value, w.first, w'.taken, j) || j in order[1..])
  {
    var r, i := w.r.value, order[0];
    if i < |w.sent| {
      if HeldOrTaken(r, w.first, w.taken, j) {
        ReceiveKeeps(r, w.first, w.taken, j, Number(w.first, i), w.sent[i]);
      } else if j == i {
        ReceiveHolds(r, w.first, w.taken, i, w.sent[i]);
      }
    }
  }

  /** Nothing that is due is left waiting. */
  lemma NothingDueWaits(w: World, m: nat)
    requires Sound(w) && w.r.Some? && Expected(w, [], m)
    ensures w.taken >= m
  {
    var r := w.r.value;
    NextNumber(w.first, w.taken - 1);
    forall q | q in r.reorder ensures q != Number(w.first, w.taken) {
      assert WaitsAt(r, w.sent, w.taken, 2, q);
      AheadOne(q, r.ackNr);
    }
    assert w.taken < m ==> HeldOrTaken(r, w.first, w.taken, w.taken);
  }

  /** Packets within the window that all come, in any order, with repeats and others among them, are all taken. */
  lemma {:induction false} AnyOrderArrives(w: World, order: seq<nat>, m: nat)
    requires Sound(w) && w.r.Some? && m <= |w.sent| && m <= w.taken + 64
    requires AllInPlace(w, Deliveries(order)) && AllFit(w, order) && Expected(w, order, m)
    ensures Run(w, Deliveries(order)).taken >= m
    decreases |order|
  {
    if order == [] {
      NothingDueWaits(w, m);
    } else {
      var w' := Step(w, Deliver(order[0]));
      assert Deliveries(order)[0] == Deliver(order[0]) && Deliveries(order)[1..] == Deliveries(order[1..]);
      DeliverKeeps(w, order[0]);
      forall j | w'.taken <= j < m ensures HeldOrTaken(w'.r.value, w'.first, w'.taken, j) || j in order[1..] {
        ExpectedStep(w, order, m, j);
      }
      AnyOrderArrives(w', order[1..], m);
    }
  }

  // ---- how much may be written -----------------------------------------------------

  lemma {:induction false} FlightIsUnacked(inFlight: seq<Sent>, first: u16, sent: seq<Packet>, acked: nat)
    requires InFlight(inFlight, first, sent, acked)
    ensures BytesInFlight(inFlight) == |Payloads(sent[acked..])|
    decreases |inFlight|
  {
    if inFlight != [] {
      assert inFlight[0] == Sent(Number(first, acked), sent[acked]);
      FlightIsUnacked(inFlight[1..], first, sent, acked + 1);
      PayloadsSplit(sent[acked..], 1);
      assert sent[acked..][..1] == [sent[acked]] && sent[acked..][1..] == sent[acked + 1..];
      assert [sent[acked]][..0] == [] && Payloads([sent[acked]]) == Payloads([]) + sent[acked].payload;
    }
  }

  /** While a connection is open for writing, what `write` takes is what is left of the buffer by the bytes written and
      not acknowledged. */
  lemma WritableIs(w: World, data: seq<byte>)
    requires Sound(w) && !w.s.ended && !w.s.finPending
    ensures w.acked <= |w.sent| && |Payloads(w.sent[..w.acked])| <= |w.written|
    ensures var unacked := |w.written| - |Payloads(w.sent[..w.acked])|;
      Step(w, Write(data)).written == w.written + data[..Min(|data|, Max(262144 - unacked, 0))]
  {
    FlightIsUnacked(w.s.inFlight, w.first, w.sent, w.acked);
    PayloadsSplit(w.sent, w.acked);
  }

  /** Each packet carries as much as there is, up to 1380 bytes. */
  lemma PacketIsFull(w: World)
    requires HasData(w.s)
    ensures var w' := Step(w, SendNext);
      && |w'.sent| == |w.sent| + 1 && w'.sent[..|w.sent|] == w.sent
      && w'.sent[|w.sent|].payload + w'.s.outbox == w.s.outbox && |w'.sent[|w.sent|].payload| <= 1380
      && (|w'.sent[|w.sent|].payload| < 1380 ==> w'.s.outbox == [])
  {
  }
}
