/** What the record of a choker (src/choker.rs) means: who is connected, who wants data and what was moved, told from
    the calls that were made and from nothing else. */
module ChokerHistory {
  import opened Numbers
  import opened Choosing
  import opened Choking

  // ---- told from the calls alone ----------------------------------------------------

  function Registered(ops: seq<Op>): nat {
    if ops == [] then 0 else Registered(ops[..|ops| - 1]) + if ops[|ops| - 1] == Register then 1 else 0
  }

  /** The connection numbered `id` was made, the first being 0, and has not ended. */
  predicate Connected(ops: seq<Op>, id: PeerId) {
    ops != [] &&
    var front, op := ops[..|ops| - 1], ops[|ops| - 1];
    if op == Register && Registered(front) == id then true
    else op != Unregister(id) && Connected(front, id)
  }

  /** The last it said, if it said anything, is that it wants data. */
  predicate Wants(ops: seq<Op>, id: PeerId) {
    ops != [] &&
    var front, op := ops[..|ops| - 1], ops[|ops| - 1];
    if op.SetInterested? && op.id == id then Connected(front, id) && op.interested
    else Connected(ops, id) && Wants(front, id)
  }

  /** The calls since the last round, or since the connection if that is later. */
  function Window(ops: seq<Op>, id: PeerId): seq<Op> {
    if ops == [] then []
    else
      var front, op := ops[..|ops| - 1], ops[|ops| - 1];
      if op == Rechoke || (op == Register && Registered(front) == id) then [] else Window(front, id) + [op]
  }

  function SentTo(ops: seq<Op>, id: PeerId): nat {
    if ops == [] then 0
    else
      var op := ops[|ops| - 1];
      SentTo(ops[..|ops| - 1], id) + if op.RecordUpload? && op.id == id then op.bytes else 0
  }

  function GivenBy(ops: seq<Op>, id: PeerId): nat {
    if ops == [] then 0
    else
      var op := ops[|ops| - 1];
      GivenBy(ops[..|ops| - 1], id) + if op.RecordDownload? && op.id == id then op.bytes else 0
  }

  // ---- the record says the same ------------------------------------------------------

  lemma {:induction false} RunSnoc(slots: nat, s: State, ops: seq<Op>, op: Op)
    ensures Run(slots, s, ops + [op]) == Step(slots, Run(slots, s, ops), op)
    decreases |ops|
  {
    if ops == [] {
      assert ops + [op] == [op] && [op][1..] == [];
    } else {
      RunSnoc(slots, Step(slots, s, ops[0]), ops[1..], op);
      assert (ops + [op])[1..] == ops[1..] + [op];
    }
  }

  /** All that the record of one peer says. */
  ghost predicate Says(s: State, ops: seq<Op>, id: PeerId) {
    && (id in s.peers <==> Connected(ops, id))
    && (id in s.peers ==>
      && (s.peers[id].interested <==> Wants(ops, id))
      && s.peers[id].uploaded == SentTo(Window(ops, id), id)
      && s.peers[id].downloaded == GivenBy(Window(ops, id), id))
  }

  lemma Lasts(ops: seq<Op>, op: Op)
    ensures (ops + [op])[..|ops + [op]| - 1] == ops && (ops + [op])[|ops + [op]| - 1] == op
  {
  }

  lemma WindowSnoc(ops: seq<Op>, op: Op, id: PeerId)
    ensures var begins := op == Rechoke || (op == Register && Registered(ops) == id);
      && SentTo(Window(ops + [op], id), id)
         == (if begins then 0
             else SentTo(Window(ops, id), id) + if op.RecordUpload? && op.id == id then op.bytes else 0)
      && GivenBy(Window(ops + [op], id), id)
         == (if begins then 0
             else GivenBy(Window(ops, id), id) + if op.RecordDownload? && op.id == id then op.bytes else 0)
  {
    Lasts(ops, op);
    Lasts(Window(ops, id), op);
  }

  lemma StepSays(slots: nat, s: State, ops: seq<Op>, op: Op, id: PeerId)
    requires Says(s, ops, id) && s.nextId == Registered(ops) && (id in s.peers ==> id < s.nextId)
    ensures Says(Step(slots, s, op), ops + [op], id) && Step(slots, s, op).nextId == Registered(ops + [op])
  {
    Lasts(ops, op);
    WindowSnoc(ops, op, id);
  }

  lemma {:induction false} RunSays(slots: nat, ops: seq<Op>, id: PeerId)
    ensures Says(Run(slots, Start, ops), ops, id) && Run(slots, Start, ops).nextId == Registered(ops)
    decreases |ops|
  {
    if ops != [] {
      var front, op := ops[..|ops| - 1], ops[|ops| - 1];
      assert ops == front + [op];
      RunSays(slots, front, id);
      ChokerIsSafe(slots, front);
      StepSays(slots, Run(slots, Start, front), front, op, id);
      RunSnoc(slots, Start, front, op);
    }
  }

  /** After any calls at all, the record holds just the peers that are connected, and says of each whether it wants data
      and how many bytes were sent to it and came from it since the last round or since it connected. */
  lemma RecordIsHistory(slots: nat, ops: seq<Op>, id: PeerId)
    ensures var s := Run(slots, Start, ops);
      && (id in s.peers <==> Connected(ops, id))
      && (id in s.peers ==>
        && (s.peers[id].interested <==> Wants(ops, id))
        && s.peers[id].uploaded == SentTo(Window(ops, id), id)
        && s.peers[id].downloaded == GivenBy(Window(ops, id), id))
  {
    RunSays(slots, ops, id);
  }

  /** Gave more in the window, or as much and took more, or as much of both and connected earlier. */
  predicate Outranks(ops: seq<Op>, a: PeerId, b: PeerId) {
    var gaveA, gaveB := GivenBy(Window(ops, a), a), GivenBy(Window(ops, b), b);
    var tookA, tookB := SentTo(Window(ops, a), a), SentTo(Window(ops, b), b);
    gaveA > gaveB || (gaveA == gaveB && (tookA > tookB || (tookA == tookB && a < b)))
  }

  /** Whoever a round serves, other than the optimistic peer, outranks by what was moved everyone who wants data and is
      not served; and it serves as many as it can of those who want data. */
  lemma RoundRanksHistory(slots: nat, ops: seq<Op>, a: PeerId, b: PeerId)
    requires var s := Run(slots, Start, ops + [Rechoke]);
      a in Unchoked(s) && s.optimistic != Some(a) && Wants(ops, b) && Connected(ops, b) && b !in Unchoked(s)
    ensures Wants(ops, a) && Outranks(ops, a, b)
  {
    var s := Run(slots, Start, ops);
    RunSnoc(slots, Start, ops, Rechoke);
    RunSays(slots, ops, a);
    RunSays(slots, ops, b);
    RoundServes(slots, s);
    RoundRanks(slots, s, a, b);
    BetterIsOutranks(s, ops, a, b);
  }

  lemma BetterIsOutranks(s: State, ops: seq<Op>, a: PeerId, b: PeerId)
    requires a in s.peers && b in s.peers && Says(s, ops, a) && Says(s, ops, b)
    ensures Better(CandidateOf(s.peers, a), CandidateOf(s.peers, b)) <==> Outranks(ops, a, b)
  {
  }

  // ---- who is served between rounds --------------------------------------------------

  /** A call that ends a connection, or says that a peer does not want data, gives up what it holds. */
  function GivenUp(op: Op): set<PeerId> {
    match op
    case Unregister(id) => {id}
    case SetInterested(id, interested) => if interested then {} else {id}
    case _ => {}
  }

  /** Between rounds nobody loses a slot who did not give it up, and only a grant gives one. */
  lemma SlotsAreKept(slots: nat, s: State, op: Op)
    requires Safe(slots, s) && !op.Rechoke? && !op.GrantIfFree?
    ensures Unchoked(Step(slots, s, op)) == Unchoked(s) - GivenUp(op)
  {
    var s' := Step(slots, s, op);
    forall id ensures id in Unchoked(s') <==> id in Unchoked(s) - GivenUp(op) {
    }
  }

  /** A grant serves the peer exactly when it wants data and a slot is free or is its own, and changes nothing for
      anyone else. */
  lemma GrantServes(slots: nat, s: State, id: PeerId)
    requires Safe(slots, s)
    ensures var s' := Step(slots, s, GrantIfFree(id));
      && (id in Unchoked(s') <==> id in Wanting(s) && (id in Unchoked(s) || |Unchoked(s)| < slots))
      && Unchoked(s') - {id} == Unchoked(s) - {id} && Wanting(s') == Wanting(s)
  {
  }

  // ---- how long the optimistic slot stays --------------------------------------------

  predicate WantsThroughout(slots: nat, s: State, ops: seq<Op>, t: PeerId)
    decreases |ops|
  {
    t in Wanting(s) && (ops == [] || WantsThroughout(slots, Step(slots, s, ops[0]), ops[1..], t))
  }

  lemma StaysPut(slots: nat, s: State, op: Op, t: PeerId)
    requires s.optimistic == Some(t) && t in Wanting(s) && t in Wanting(Step(slots, s, op))
    requires op == Rechoke ==> s.round % 3 != 0
    ensures Step(slots, s, op).optimistic == Some(t)
    ensures Step(slots, s, op).round == s.round + if op == Rechoke then 1 else 0
  {
  }

  /** A peer that goes on wanting data keeps the optimistic slot for the two rounds after the one it was given in,
      whatever else happens. */
  lemma {:induction false} OptimisticStays(slots: nat, s: State, ops: seq<Op>, t: PeerId)
    requires s.optimistic == Some(t) && WantsThroughout(slots, s, ops, t)
    requires s.round % 3 + Rounds(ops) <= 3 && s.round % 3 != 0
    ensures Run(slots, s, ops).optimistic == Some(t)
    decreases |ops|
  {
    if ops != [] {
      StaysPut(slots, s, ops[0], t);
      if Rounds(ops[1..]) > 0 || ops[0] != Rechoke {
        OptimisticStays(slots, Step(slots, s, ops[0]), ops[1..], t);
      } else {
        NoRoundStays(slots, Step(slots, s, ops[0]), ops[1..], t);
      }
    }
  }

  lemma {:induction false} NoRoundStays(slots: nat, s: State, ops: seq<Op>, t: PeerId)
    requires s.optimistic == Some(t) && WantsThroughout(slots, s, ops, t) && Rounds(ops) == 0
    ensures Run(slots, s, ops).optimistic == Some(t)
    decreases |ops|
  {
    if ops != [] {
      StaysPut(slots, s, ops[0], t);
      NoRoundStays(slots, Step(slots, s, ops[0]), ops[1..], t);
    }
  }
}
