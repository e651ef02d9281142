/** The receiving half of a uTP connection (BEP 29, src/utp/conn.rs): packets come in any order, some twice, numbered
    round a circle of 2^16, and what they carry is put in order. */
module UtpReceiving {
  import opened Numbers
  import opened Bytes

  const CIRCLE: int := 0x1_0000

  type u16 = n: int | 0 <= n < 0x1_0000

  const REORDER_WINDOW: int := 64
  const RECEIVE_BUFFER: int := 524288

  datatype Packet = Packet(fin: bool, payload: seq<byte>)

  // ---- numbers round the circle ----------------------------------------------------

  /** `wrapping_sub`: how far `a` is after `b`. */
  function Ahead(a: u16, b: u16): u16 {
    (a - b) % CIRCLE
  }

  /** The number on the wire of packet `i`, the first being numbered `first`. */
  function Number(first: u16, i: int): u16 {
    (first + i) % CIRCLE
  }

  lemma AheadOfNumbers(first: u16, i: int, j: int)
    ensures Ahead(Number(first, i), Number(first, j)) == (i - j) % CIRCLE
  {
    var a, b := (first + i) / CIRCLE, (first + j) / CIRCLE;
    assert Number(first, i) == first + i - CIRCLE * a && Number(first, j) == first + j - CIRCLE * b;
    assert Number(first, i) - Number(first, j) == (i - j) + CIRCLE * (b - a);
    SameRemainder(Number(first, i) - Number(first, j), i - j, b - a);
  }

  lemma AheadInWindow(first: u16, i: nat, n: nat)
    requires n <= i < n + REORDER_WINDOW
    ensures Ahead(Number(first, i), Number(first, n - 1)) == i - (n - 1)
  {
    AheadOfNumbers(first, i, n - 1);
  }

  lemma SameRemainder(x: int, y: int, k: int)
    requires x == y + CIRCLE * k
    ensures x % CIRCLE == y % CIRCLE
  {
  }

  lemma NextNumber(first: u16, i: int)
    ensures Number(Number(first, i), 1) == Number(first, i + 1)
  {
    var a := (first + i) / CIRCLE;
    assert Number(first, i) == first + i - CIRCLE * a;
    SameRemainder(Number(first, i) + 1, first + i + 1, -a);
  }

  /** Packet `i` is not taken for another by a receiver that expects packet `n`: if its number falls in the window, so
      does the packet. */
  predicate Placed(i: nat, n: nat) {
    1 <= (i - (n - 1)) % CIRCLE <= REORDER_WINDOW ==> n <= i < n + REORDER_WINDOW
  }

  /** So it is with every packet less than a circle behind, less the window, and at most a circle ahead; and with the
      next one past either end it is not. */
  lemma NearIsPlaced(i: nat, n: nat)
    ensures n - (CIRCLE - REORDER_WINDOW) <= i < n + CIRCLE ==> Placed(i, n)
    ensures i == n - (CIRCLE - REORDER_WINDOW) - 1 || i == n + CIRCLE ==> !Placed(i, n)
  {
  }

  // ---- the receiver ----------------------------------------------------------------

  /** The fields of a connection that receiving is about. */
  datatype Receiver = Receiver(ackNr: u16, inbox: seq<byte>, reorder: map<u16, seq<byte>>, reorderBytes: int,
                               finSeq: Option<u16>, peerClosed: bool)

  function Opened(ackNr: u16): Receiver {
    Receiver(ackNr, [], map[], 0, None, false)
  }

  function Room(r: Receiver): int {
    Max(RECEIVE_BUFFER - (|r.inbox| + r.reorderBytes), 0)
  }

  /** The next packet, if it is held, is taken out of the reorder buffer. */
  function TakeNext(r: Receiver): Receiver
    requires Number(r.ackNr, 1) in r.reorder
  {
    var next := Number(r.ackNr, 1);
    r.(ackNr := next, inbox := r.inbox + r.reorder[next], reorder := r.reorder - {next},
       reorderBytes := r.reorderBytes - |r.reorder[next]|)
  }

  function Drain(r: Receiver): Receiver
    decreases r.reorder.Keys
  {
    if Number(r.ackNr, 1) in r.reorder then Drain(TakeNext(r)) else r
  }

  /** How many packets that takes. */
  function DrainCount(r: Receiver): nat
    decreases r.reorder.Keys
  {
    if Number(r.ackNr, 1) in r.reorder then 1 + DrainCount(TakeNext(r)) else 0
  }

  /** A packet that is due, with what was waiting for it; or one that has to wait. */
  function Place(r: Receiver, number: u16, payload: seq<byte>): Receiver {
    if number == Number(r.ackNr, 1) then Drain(r.(inbox := r.inbox + payload, ackNr := number))
    else if number in r.reorder then r
    else r.(reorder := r.reorder[number := payload], reorderBytes := r.reorderBytes + |payload|)
  }

  function PlaceCount(r: Receiver, number: u16, payload: seq<byte>): nat {
    if number == Number(r.ackNr, 1) then 1 + DrainCount(r.(inbox := r.inbox + payload, ackNr := number)) else 0
  }

  function NoteFin(r: Receiver, number: u16, fin: bool): Receiver {
    if fin then r.(finSeq := Some(number)) else r
  }

  function CloseIfDone(r: Receiver): Receiver {
    if r.finSeq == Some(r.ackNr) then r.(peerClosed := true) else r
  }

  /** `receive`. */
  function Receive(r: Receiver, number: u16, p: Packet): Receiver {
    if !(1 <= Ahead(number, r.ackNr) <= REORDER_WINDOW) || |p.payload| > Room(r) then r
    else CloseIfDone(Place(NoteFin(r, number, p.fin), number, p.payload))
  }

  /** How many packets `receive` takes in order. */
  function ReceiveCount(r: Receiver, number: u16, p: Packet): nat {
    if !(1 <= Ahead(number, r.ackNr) <= REORDER_WINDOW) || |p.payload| > Room(r) then 0
    else PlaceCount(NoteFin(r, number, p.fin), number, p.payload)
  }

  lemma AheadOne(a: u16, b: u16)
    ensures Ahead(a, b) == 1 <==> a == Number(b, 1)
  {
  }

  // ---- what it has of what was sent ------------------------------------------------

  function Payloads(sent: seq<Packet>): seq<byte> {
    if sent == [] then [] else Payloads(sent[..|sent| - 1]) + sent[|sent| - 1].payload
  }

  /** The bytes held out of order, those under numbers below `n`. */
  function HeldBelow(m: map<u16, seq<byte>>, n: nat): nat
    decreases n, m.Keys
  {
    if n == 0 then 0 else HeldBelow(m, n - 1) + if n - 1 in m then |m[n - 1]| else 0
  }

  lemma {:induction false} HeldWith(m: map<u16, seq<byte>>, q: u16, b: seq<byte>, n: nat)
    requires q !in m
    ensures HeldBelow(m[q := b], n) == HeldBelow(m, n) + if q < n then |b| else 0
    decreases n
  {
    if n > 0 {
      HeldWith(m, q, b, n - 1);
    }
  }

  lemma HeldWithout(m: map<u16, seq<byte>>, q: u16, n: nat)
    requires q in m
    ensures HeldBelow(m - {q}, n) == HeldBelow(m, n) - if q < n then |m[q]| else 0
  {
    HeldWith(m - {q}, q, m[q], n);
    assert (m - {q})[q := m[q]] == m;
  }

  /** What is held out of order is from the `low`th packet past the last in order up to the end of the window, each
      under its own number. */
  ghost predicate Waiting(r: Receiver, sent: seq<Packet>, n: nat, low: int) {
    forall q :: q in r.reorder ==> WaitsAt(r, sent, n, low, q)
  }

  ghost predicate WaitsAt(r: Receiver, sent: seq<Packet>, n: nat, low: int, q: u16)
    requires q in r.reorder
  {
    var d := Ahead(q, r.ackNr);
    low <= d <= REORDER_WINDOW && 0 <= n - 1 + d < |sent| && r.reorder[q] == sent[n - 1 + d].payload
  }

  /** Only the last packet closes. */
  predicate FinLast(sent: seq<Packet>) {
    forall i :: 0 <= i < |sent| - 1 ==> !sent[i].fin
  }

  predicate Closes(sent: seq<Packet>) {
    sent != [] && sent[|sent| - 1].fin
  }

  /** The receiver has the packets from `from` to `n` of those sent, in order; `read` is what was read of them. */
  ghost predicate Has(r: Receiver, first: u16, sent: seq<Packet>, from: nat, n: nat, read: seq<byte>) {
    && from <= n <= |sent| && r.ackNr == Number(first, n - 1)
    && read + r.inbox == Payloads(sent[from..n])
  }

  ghost predicate Counts(r: Receiver) {
    r.reorderBytes == HeldBelow(r.reorder, CIRCLE) && |r.inbox| + r.reorderBytes <= RECEIVE_BUFFER
  }

  /** A close that is known of is that of the last packet, which is not past the window. */
  ghost predicate FinKnown(r: Receiver, first: u16, sent: seq<Packet>, n: nat) {
    && (r.finSeq.Some? ==>
      && Closes(sent) && r.finSeq.value == Number(first, |sent| - 1)
      && n <= |sent| <= n + REORDER_WINDOW)
    && (r.peerClosed ==> Closes(sent) && n == |sent|)
  }

  /** All that holds of a receiver between packets. */
  ghost predicate Tracks(r: Receiver, first: u16, sent: seq<Packet>, from: nat, n: nat, read: seq<byte>) {
    Has(r, first, sent, from, n, read) && Waiting(r, sent, n, 2) && Counts(r) && FinKnown(r, first, sent, n)
  }

  lemma PayloadsMore(sent: seq<Packet>, from: nat, n: nat)
    requires from <= n < |sent|
    ensures Payloads(sent[from..n + 1]) == Payloads(sent[from..n]) + sent[n].payload
  {
    assert sent[from..n + 1][..n - from] == sent[from..n];
  }

  /** Taking packet `n` moves all that waits one place nearer. */
  lemma OneNearer(r: Receiver, r': Receiver, first: u16, sent: seq<Packet>, n: nat, low: int)
    requires low >= 1 && Waiting(r, sent, n, low) && r.ackNr == Number(first, n - 1) && r'.ackNr == Number(first, n)
    requires forall q :: q in r'.reorder ==> q in r.reorder && q != Number(r.ackNr, 1) && r'.reorder[q] == r.reorder[q]
    ensures Waiting(r', sent, n + 1, 1)
  {
    NextNumber(first, n - 1);
    forall q | q in r'.reorder
      ensures WaitsAt(r', sent, n + 1, 1, q)
    {
      assert WaitsAt(r, sent, n, low, q);
      AheadOne(q, r.ackNr);
      Nearer(q, r.ackNr, r'.ackNr);
    }
  }

  lemma Nearer(q: u16, a: u16, b: u16)
    requires b == Number(a, 1) && Ahead(q, a) >= 1
    ensures Ahead(q, b) == Ahead(q, a) - 1
  {
  }

  lemma TakeNextCounts(r: Receiver)
    requires Counts(r) && Number(r.ackNr, 1) in r.reorder
    ensures Counts(TakeNext(r))
  {
    HeldWithout(r.reorder, Number(r.ackNr, 1), CIRCLE);
  }

  lemma TakeNextHas(r: Receiver, first: u16, sent: seq<Packet>, from: nat, n: nat, read: seq<byte>)
    requires Has(r, first, sent, from, n, read) && Waiting(r, sent, n, 1) && Number(r.ackNr, 1) in r.reorder
    ensures n < |sent| && Has(TakeNext(r), first, sent, from, n + 1, read)
    ensures Waiting(TakeNext(r), sent, n + 1, 1)
  {
    var next := Number(r.ackNr, 1);
    assert WaitsAt(r, sent, n, 1, next);
    AheadOne(next, r.ackNr);
    NextNumber(first, n - 1);
    PayloadsMore(sent, from, n);
    Assoc3(read, r.inbox, r.reorder[next]);
    OneNearer(r, TakeNext(r), first, sent, n, 1);
  }

  lemma {:induction false} DrainHas(r: Receiver, first: u16, sent: seq<Packet>, from: nat, n: nat, read: seq<byte>)
    returns (n': nat)
    requires Has(r, first, sent, from, n, read) && Waiting(r, sent, n, 1) && Counts(r)
    ensures n' == n + DrainCount(r) && Has(Drain(r), first, sent, from, n', read) && Waiting(Drain(r), sent, n', 2)
    ensures Counts(Drain(r))
    ensures Drain(r).finSeq == r.finSeq && Drain(r).peerClosed == r.peerClosed
    decreases r.reorder.Keys
  {
    var next := Number(r.ackNr, 1);
    if next in r.reorder {
      TakeNextHas(r, first, sent, from, n, read);
      TakeNextCounts(r);
      n' := DrainHas(TakeNext(r), first, sent, from, n + 1, read);
    } else {
      n' := n;
      forall q | q in r.reorder
        ensures WaitsAt(r, sent, n, 2, q)
      {
        assert WaitsAt(r, sent, n, 1, q);
        AheadOne(q, r.ackNr);
      }
    }
  }

  /** The packet that is due. */
  lemma DueHas(r: Receiver, first: u16, sent: seq<Packet>, from: nat, n: nat, read: seq<byte>)
    requires Has(r, first, sent, from, n, read) && Waiting(r, sent, n, 2) && Counts(r)
    requires n < |sent| && |sent[n].payload| <= Room(r)
    ensures var r' := r.(inbox := r.inbox + sent[n].payload, ackNr := Number(first, n));
      Has(r', first, sent, from, n + 1, read) && Waiting(r', sent, n + 1, 1) && Counts(r')
  {
    var r' := r.(inbox := r.inbox + sent[n].payload, ackNr := Number(first, n));
    PayloadsMore(sent, from, n);
    Assoc3(read, r.inbox, sent[n].payload);
    forall q | q in r.reorder
      ensures q != Number(r.ackNr, 1)
    {
      assert WaitsAt(r, sent, n, 2, q);
      AheadOne(q, r.ackNr);
    }
    OneNearer(r, r', first, sent, n, 2);
  }

  /** A packet that has to wait. */
  lemma EarlyHas(r: Receiver, first: u16, sent: seq<Packet>, from: nat, n: nat, read: seq<byte>, i: nat)
    requires Has(r, first, sent, from, n, read) && Waiting(r, sent, n, 2) && Counts(r)
    requires n < i < |sent| && i < n + REORDER_WINDOW && |sent[i].payload| <= Room(r)
    requires Number(first, i) != Number(r.ackNr, 1)
    ensures var r' := Place(r, Number(first, i), sent[i].payload);
      Has(r', first, sent, from, n, read) && Waiting(r', sent, n, 2) && Counts(r')
  {
    var number := Number(first, i);
    var r' := Place(r, number, sent[i].payload);
    AheadInWindow(first, i, n);
    if number !in r.reorder {
      HeldWith(r.reorder, number, sent[i].payload, CIRCLE);
      forall q | q in r'.reorder
        ensures WaitsAt(r', sent, n, 2, q)
      {
        if q != number {
          assert WaitsAt(r, sent, n, 2, q);
        }
      }
    }
  }

  lemma PlaceHas(r: Receiver, first: u16, sent: seq<Packet>, from: nat, n: nat, read: seq<byte>, i: nat)
    returns (n': nat)
    requires Has(r, first, sent, from, n, read) && Waiting(r, sent, n, 2) && Counts(r)
    requires n <= i < |sent| && i < n + REORDER_WINDOW && |sent[i].payload| <= Room(r)
    ensures var r' := Place(r, Number(first, i), sent[i].payload);
      && n' == n + PlaceCount(r, Number(first, i), sent[i].payload)
      && Has(r', first, sent, from, n', read) && Waiting(r', sent, n', 2) && Counts(r')
      && r'.finSeq == r.finSeq && r'.peerClosed == r.peerClosed
  {
    NextNumber(first, n - 1);
    AheadOfNumbers(first, i, n - 1);
    AheadOne(Number(first, i), r.ackNr);
    if i == n {
      DueHas(r, first, sent, from, n, read);
      n' := DrainHas(r.(inbox := r.inbox + sent[n].payload, ackNr := Number(first, n)), first, sent, from, n + 1, read);
    } else {
      EarlyHas(r, first, sent, from, n, read, i);
      n' := n;
    }
  }

  lemma CloseTracks(r: Receiver, first: u16, sent: seq<Packet>, from: nat, n: nat, read: seq<byte>)
    requires Tracks(r, first, sent, from, n, read)
    ensures Tracks(CloseIfDone(r), first, sent, from, n, read)
  {
    forall q | q in r.reorder ensures WaitsAt(CloseIfDone(r), sent, n, 2, q) {
      assert WaitsAt(r, sent, n, 2, q);
    }
    AheadOfNumbers(first, |sent| - 1, n - 1);
  }

  lemma NoteFinKeeps(r: Receiver, first: u16, sent: seq<Packet>, from: nat, n: nat, read: seq<byte>, i: nat)
    requires Tracks(r, first, sent, from, n, read) && FinLast(sent) && n <= i < |sent| && i < n + REORDER_WINDOW
    ensures Tracks(NoteFin(r, Number(first, i), sent[i].fin), first, sent, from, n, read)
  {
    var r' := NoteFin(r, Number(first, i), sent[i].fin);
    forall q | q in r'.reorder ensures WaitsAt(r', sent, n, 2, q) {
      assert WaitsAt(r, sent, n, 2, q);
    }
  }

  lemma TakenTracks(r: Receiver, first: u16, sent: seq<Packet>, from: nat, n: nat, read: seq<byte>, i: nat)
    requires Tracks(r, first, sent, from, n, read) && FinLast(sent) && n <= i < |sent| && i < n + REORDER_WINDOW
    requires |sent[i].payload| <= Room(r)
    ensures var noted := NoteFin(r, Number(first, i), sent[i].fin);
      Tracks(CloseIfDone(Place(noted, Number(first, i), sent[i].payload)), first, sent, from,
             n + PlaceCount(noted, Number(first, i), sent[i].payload), read)
  {
    var number, p := Number(first, i), sent[i];
    var noted := NoteFin(r, number, p.fin);
    NoteFinKeeps(r, first, sent, from, n, read, i);
    var n' := PlaceHas(noted, first, sent, from, n, read, i);
    CloseTracks(Place(noted, number, p.payload), first, sent, from, n', read);
  }

  /** Whatever packet comes, if it is not taken for another, the receiver goes on having what was sent, in order. */
  lemma ReceiveTracks(r: Receiver, first: u16, sent: seq<Packet>, from: nat, n: nat, read: seq<byte>, i: nat)
    requires Tracks(r, first, sent, from, n, read) && FinLast(sent) && i < |sent| && Placed(i, n)
    ensures Tracks(Receive(r, Number(first, i), sent[i]), first, sent, from,
                   n + ReceiveCount(r, Number(first, i), sent[i]), read)
  {
    AheadOfNumbers(first, i, n - 1);
    if 1 <= Ahead(Number(first, i), r.ackNr) <= REORDER_WINDOW && |sent[i].payload| <= Room(r) {
      TakenTracks(r, first, sent, from, n, read, i);
    }
  }

  /** A packet whose number falls in the window is taken for the packet of that place, whichever it is: so one that is
      not there is taken for another exactly when it is not placed. */
  lemma TakenFor(r: Receiver, first: u16, i: nat, n: nat, p: Packet)
    requires r.ackNr == Number(first, n - 1) && |p.payload| <= Room(r)
    requires var d := (i - (n - 1)) % CIRCLE; 2 <= d <= REORDER_WINDOW && Number(first, n - 1 + d) !in r.reorder
    ensures var d := (i - (n - 1)) % CIRCLE;
      && Receive(r, Number(first, i), p).reorder == r.reorder[Number(first, n - 1 + d) := p.payload]
      && (n - 1 + d == i <==> Placed(i, n))
  {
    var d := (i - (n - 1)) % CIRCLE;
    AheadOfNumbers(first, i, n - 1);
    AheadOne(Number(first, i), r.ackNr);
    var k := (i - (n - 1)) / CIRCLE;
    assert i - (n - 1) == CIRCLE * k + d;
    SameRemainder(first + i, first + (n - 1 + d), k);
  }

  // ---- while more is sent, and while what came is read ------------------------------

  lemma SliceBefore(sent: seq<Packet>, p: Packet, from: nat, n: nat)
    requires from <= n <= |sent|
    ensures (sent + [p])[from..n] == sent[from..n]
  {
  }

  lemma TracksGrow(r: Receiver, first: u16, sent: seq<Packet>, from: nat, n: nat, read: seq<byte>, p: Packet)
    requires Tracks(r, first, sent, from, n, read) && !Closes(sent)
    ensures Tracks(r, first, sent + [p], from, n, read)
  {
    SliceBefore(sent, p, from, n);
    forall q | q in r.reorder ensures WaitsAt(r, sent + [p], n, 2, q) {
      assert WaitsAt(r, sent, n, 2, q);
    }
  }

  /** `read`: up to `k` bytes are taken out. */
  function ReadOut(r: Receiver, k: nat): Receiver {
    r.(inbox := r.inbox[Min(k, |r.inbox|)..])
  }

  lemma ReadOutTracks(r: Receiver, first: u16, sent: seq<Packet>, from: nat, n: nat, read: seq<byte>, k: nat)
    requires Tracks(r, first, sent, from, n, read)
    ensures Tracks(ReadOut(r, k), first, sent, from, n, read + r.inbox[..Min(k, |r.inbox|)])
  {
    var m := Min(k, |r.inbox|);
    Assoc3(read, r.inbox[..m], r.inbox[m..]);
    assert r.inbox == r.inbox[..m] + r.inbox[m..];
    forall q | q in r.reorder ensures WaitsAt(ReadOut(r, k), sent, n, 2, q) {
      assert WaitsAt(r, sent, n, 2, q);
    }
  }

  /** A receiver that has just opened, expecting packet `from`. */
  lemma {:induction false} OpenedTracks(first: u16, sent: seq<Packet>, from: nat)
    requires from <= |sent|
    ensures Tracks(Opened(Number(first, from - 1)), first, sent, from, from, [])
  {
    NothingHeld(CIRCLE);
  }

  lemma {:induction false} NothingHeld(n: nat)
    ensures HeldBelow(map[], n) == 0
    decreases n
  {
    if n > 0 {
      NothingHeld(n - 1);
    }
  }
}
