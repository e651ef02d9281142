/** The record of who is unchoked (`Choker`, src/choker.rs): its operations as steps of a state machine, what every run
    of them keeps, the fairness of the optimistic slot, and the class that updates it in place. */
module Choking {
  import opened Numbers
  import opened Choosing

  const OPTIMISTIC_EVERY: nat := 3

  datatype Slot = Slot(interested: bool, unchoked: bool, uploaded: nat, downloaded: nat)

  datatype State = State(peers: map<PeerId, Slot>, nextId: PeerId, optimistic: Option<PeerId>, round: nat)

  datatype Op =
    | Register
    | Unregister(id: PeerId)
    | SetInterested(id: PeerId, interested: bool)
    | GrantIfFree(id: PeerId)
    | RecordUpload(id: PeerId, bytes: nat)
    | RecordDownload(id: PeerId, bytes: nat)
    | Rechoke

  // ---- the peers in order ------------------------------------------------------

  predicate IsLeast(k: nat, s: set<nat>) {
    k in s && forall x :: x in s ==> k <= x
  }

  lemma {:induction false} LeastExists(s: set<nat>)
    requires s != {}
    ensures exists k :: IsLeast(k, s)
    decreases |s|
  {
    var y :| y in s;
    var rest := s - {y};
    if rest == {} {
      assert s == {y};
      assert IsLeast(y, s);
    } else {
      LeastExists(rest);
      var k: nat :| IsLeast(k, rest);
      var m: nat := if k <= y then k else y;
      forall x | x in s ensures m <= x {
        if x != y { assert x in rest; }
      }
      assert IsLeast(m, s);
    }
  }

  function Least(s: set<nat>): (k: nat)
    requires s != {}
    ensures IsLeast(k, s)
  {
    LeastExists(s);
    var k :| k in s && IsLeast(k, s);
    k
  }

  function CandidateOf(peers: map<PeerId, Slot>, id: PeerId): Candidate
    requires id in peers
  {
    Candidate(id, peers[id].interested, peers[id].uploaded, peers[id].downloaded)
  }

  /** What is known of the peers under some keys, in the order of the keys. */
  function CandidatesFrom(peers: map<PeerId, Slot>, keys: set<PeerId>): seq<Candidate>
    requires keys <= peers.Keys
  {
    if keys == {} then [] else [CandidateOf(peers, Least(keys))] + CandidatesFrom(peers, keys - {Least(keys)})
  }

  function Candidates(peers: map<PeerId, Slot>): seq<Candidate> {
    CandidatesFrom(peers, peers.Keys)
  }

  lemma {:induction false} CandidatesAre(peers: map<PeerId, Slot>, keys: set<PeerId>)
    requires keys <= peers.Keys
    ensures DistinctIds(CandidatesFrom(peers, keys))
    ensures forall c :: c in CandidatesFrom(peers, keys) <==> c.id in keys && c == CandidateOf(peers, c.id)
    decreases keys
  {
    if keys != {} {
      var id := Least(keys);
      var rest := CandidatesFrom(peers, keys - {id});
      CandidatesAre(peers, keys - {id});
      forall i | 0 <= i < |rest| ensures rest[i].id != id {
        assert rest[i] in rest;
      }
    }
  }

  /** The peers that want data, and those served. */
  function Wanting(s: State): set<PeerId> {
    set id | id in s.peers && s.peers[id].interested
  }

  function Unchoked(s: State): set<PeerId> {
    set id | id in s.peers && s.peers[id].unchoked
  }

  // ---- the steps ---------------------------------------------------------------

  /** The interested peer after the last optimistic one, in the order they connected, or the first again. */
  function NextOptimistic(wanting: set<PeerId>, after: Option<PeerId>): Option<PeerId> {
    var later := set id | id in wanting && (after.None? || id > after.value);
    if later != {} then Some(Least(later))
    else if wanting != {} then Some(Least(wanting))
    else None
  }

  /** Whether a round moves the optimistic slot on. */
  predicate Moves(slots: nat, s: State) {
    slots > 1 && ((s.round + 1) % OPTIMISTIC_EVERY == 1 || s.optimistic.None? || s.optimistic.value !in Wanting(s))
  }

  function OptimisticAfter(slots: nat, s: State): Option<PeerId> {
    if Moves(slots, s) then NextOptimistic(Wanting(s), s.optimistic) else s.optimistic
  }

  function ChosenBy(slots: nat, s: State): set<PeerId> {
    Choose(Candidates(s.peers), slots, OptimisticAfter(slots, s))
  }

  function AfterRound(peers: map<PeerId, Slot>, chosen: set<PeerId>): map<PeerId, Slot> {
    map id | id in peers :: Slot(peers[id].interested, id in chosen, 0, 0)
  }

  function Step(slots: nat, s: State, op: Op): State {
    match op
    case Register => s.(peers := s.peers[s.nextId := Slot(false, false, 0, 0)], nextId := s.nextId + 1)
    case Unregister(id) => s.(peers := s.peers - {id},
                              optimistic := if s.optimistic == Some(id) then None else s.optimistic)
    case SetInterested(id, interested) =>
      if id !in s.peers then s
      else
        var p := s.peers[id];
        s.(peers := s.peers[id := p.(interested := interested, unchoked := p.unchoked && interested)])
    case GrantIfFree(id) =>
      if id in s.peers && !s.peers[id].unchoked && s.peers[id].interested && |Unchoked(s)| < slots
      then s.(peers := s.peers[id := s.peers[id].(unchoked := true)])
      else s
    case RecordUpload(id, bytes) =>
      if id !in s.peers then s else s.(peers := s.peers[id := s.peers[id].(uploaded := s.peers[id].uploaded + bytes)])
    case RecordDownload(id, bytes) =>
      if id !in s.peers then s
      else s.(peers := s.peers[id := s.peers[id].(downloaded := s.peers[id].downloaded + bytes)])
    case Rechoke =>
      State(AfterRound(s.peers, ChosenBy(slots, s)), s.nextId, OptimisticAfter(slots, s), s.round + 1)
  }

  function Run(slots: nat, s: State, ops: seq<Op>): State
    decreases |ops|
  {
    if ops == [] then s else Run(slots, Step(slots, s, ops[0]), ops[1..])
  }

  const Start: State := State(map[], 0, None, 0)

  // ---- safety --------------------------------------------------------------------

  /** No more served than there are slots, nobody served who does not want data, the optimistic peer is registered, and
      no number is used twice. */
  ghost predicate Safe(slots: nat, s: State) {
    && |Unchoked(s)| <= slots
    && Unchoked(s) <= Wanting(s)
    && (s.optimistic.Some? ==> s.optimistic.value in s.peers)
    && (forall id :: id in s.peers ==> id < s.nextId)
  }

  lemma SetGrows(a: set<nat>, b: set<nat>, x: nat)
    requires b <= a + {x}
    ensures |b| <= |a| + 1
  {
    CountWith(a, x);
    SubsetCount(b, a + {x});
  }

  lemma SubsetCount(a: set<nat>, b: set<nat>)
    requires a <= b
    ensures |a| <= |b|
  {
    assert b == a + (b - a);
  }

  lemma StepIsSafe(slots: nat, s: State, op: Op)
    requires Safe(slots, s)
    ensures Safe(slots, Step(slots, s, op))
  {
    var s' := Step(slots, s, op);
    match op
    case GrantIfFree(id) =>
      SetGrows(Unchoked(s), Unchoked(s'), id);
      if s' == s {
      } else {
        assert Unchoked(s') <= Wanting(s');
      }
    case Rechoke =>
      RoundServes(slots, s);
      OptimisticIsPeer(slots, s);
    case _ =>
      assert Unchoked(s') <= Unchoked(s);
      SubsetCount(Unchoked(s'), Unchoked(s));
  }

  lemma OptimisticIsPeer(slots: nat, s: State)
    requires s.optimistic.Some? ==> s.optimistic.value in s.peers
    ensures OptimisticAfter(slots, s).Some? ==> OptimisticAfter(slots, s).value in s.peers
  {
  }

  /** A round serves exactly as many as there are slots and peers that want data, all of them wanting it. */
  lemma RoundServes(slots: nat, s: State)
    ensures var s' := Step(slots, s, Rechoke);
      && Wanting(s') == Wanting(s) && Unchoked(s') == ChosenBy(slots, s) <= Wanting(s)
      && |Unchoked(s')| == Min(slots, |Wanting(s)|)
      && (slots > 1 && s'.optimistic.Some? && s'.optimistic.value in Wanting(s) ==> s'.optimistic.value in Unchoked(s'))
  {
    CandidatesAre(s.peers, s.peers.Keys);
    ChoiceCounts(Candidates(s.peers), slots, OptimisticAfter(slots, s));
    WantingCandidates(s);
    RoundSets(s, ChosenBy(slots, s), OptimisticAfter(slots, s));
  }

  lemma RoundSets(s: State, chosen: set<PeerId>, optimistic: Option<PeerId>)
    requires chosen <= Wanting(s)
    ensures var s' := State(AfterRound(s.peers, chosen), s.nextId, optimistic, s.round + 1);
      Wanting(s') == Wanting(s) && Unchoked(s') == chosen
  {
  }

  lemma WantingCandidates(s: State)
    ensures var wanting := Interested(Candidates(s.peers)); Ids(wanting) == Wanting(s) && |wanting| == |Wanting(s)|
  {
    var cs := Candidates(s.peers);
    var wanting := Interested(cs);
    CandidatesAre(s.peers, s.peers.Keys);
    forall id ensures id in Ids(wanting) <==> id in Wanting(s) {
      if id in Wanting(s) { assert CandidateOf(s.peers, id) in wanting; }
    }
    InterestedDistinct(cs);
    DistinctCount(wanting);
  }

  /** Every run of operations, in any order and whatever their arguments, stays safe. */
  lemma {:induction false} RunsAreSafe(slots: nat, s: State, ops: seq<Op>)
    requires Safe(slots, s)
    ensures Safe(slots, Run(slots, s, ops))
    decreases |ops|
  {
    if ops != [] {
      StepIsSafe(slots, s, ops[0]);
      RunsAreSafe(slots, Step(slots, s, ops[0]), ops[1..]);
    }
  }

  lemma ChokerIsSafe(slots: nat, ops: seq<Op>)
    ensures Safe(slots, Run(slots, Start, ops))
  {
    assert Unchoked(Start) == {} && Wanting(Start) == {};
    RunsAreSafe(slots, Start, ops);
  }

  /** After a round, whoever is served, other than the optimistic peer, ranks above everyone who wants data and is
      not. */
  lemma RoundRanks(slots: nat, s: State, a: PeerId, b: PeerId)
    requires a in ChosenBy(slots, s) && b in Wanting(s) && b !in ChosenBy(slots, s)
    requires OptimisticAfter(slots, s) != Some(a)
    ensures Unchoked(Step(slots, s, Rechoke)) == ChosenBy(slots, s)
    ensures a in s.peers && Better(CandidateOf(s.peers, a), CandidateOf(s.peers, b))
  {
    RoundServes(slots, s);
    CandidatesAre(s.peers, s.peers.Keys);
    ChoiceRanks(Candidates(s.peers), slots, OptimisticAfter(slots, s), CandidateOf(s.peers, a),
                CandidateOf(s.peers, b));
  }

  // ---- fairness ------------------------------------------------------------------

  function Below(w: set<PeerId>, t: PeerId): set<PeerId> {
    set x | x in w && x < t
  }

  function Above(w: set<PeerId>, a: PeerId): set<PeerId> {
    set x | x in w && x > a
  }

  function Within(w: set<PeerId>, a: PeerId, t: PeerId): set<PeerId> {
    set x | x in w && a < x < t
  }

  /** How many moves from `after` until the optimistic slot is at `t`. */
  function Distance(w: set<PeerId>, after: Option<PeerId>, t: PeerId): nat {
    if after.None? then |Below(w, t)| + 1
    else if after.value < t then |Within(w, after.value, t)| + 1
    else |Above(w, after.value)| + |Below(w, t)| + 1
  }

  lemma DistanceBound(w: set<PeerId>, after: Option<PeerId>, t: PeerId)
    requires t in w
    ensures Distance(w, after, t) <= |w|
  {
    if after.None? {
      SubsetCount(Below(w, t) + {t}, w);
    } else if after.value < t {
      SubsetCount(Within(w, after.value, t) + {t}, w);
    } else {
      BothSides(w, after.value, t);
    }
  }

  lemma BothSides(w: set<PeerId>, a: PeerId, t: PeerId)
    requires t in w && t <= a
    ensures |Above(w, a)| + |Below(w, t)| + 1 <= |w|
  {
    var up, down := Above(w, a), Below(w, t);
    assert |up + down| == |up| + |down|;
    CountWith(up + down, t);
    SubsetCount(up + down + {t}, w);
  }

  /** Each move of the slot is one nearer, and it arrives when there is one to go. */
  lemma MoveIsNearer(w: set<PeerId>, after: Option<PeerId>, t: PeerId)
    requires t in w
    ensures var next := NextOptimistic(w, after);
      && next.Some? && next.value in w
      && (next.value != t ==> Distance(w, next, t) == Distance(w, after, t) - 1)
  {
    var later := set id | id in w && (after.None? || id > after.value);
    if after.None? {
      assert later == w;
      FirstOf(w, t);
    } else if after.value < t {
      assert later == Above(w, after.value) && t in later;
      NextUpTo(w, after.value, t);
    } else if later != {} {
      assert later == Above(w, after.value);
      NextAbove(w, after.value, t);
    } else {
      assert Above(w, after.value) == later == {};
      FirstOf(w, t);
    }
  }

  lemma FirstOf(w: set<PeerId>, t: PeerId)
    requires t in w
    ensures var k := Least(w); k <= t && (k < t ==> |Within(w, k, t)| == |Below(w, t)| - 1)
  {
    var k := Least(w);
    if k < t {
      assert Below(w, t) == Within(w, k, t) + {k};
      CountWith(Within(w, k, t), k);
    }
  }

  lemma NextUpTo(w: set<PeerId>, a: PeerId, t: PeerId)
    requires t in w && a < t
    ensures t in Above(w, a)
    ensures var k := Least(Above(w, a)); k <= t && (k < t ==> |Within(w, k, t)| == |Within(w, a, t)| - 1)
  {
    assert t in Above(w, a);
    var k := Least(Above(w, a));
    if k < t {
      forall x ensures x in Within(w, a, t) <==> x in Within(w, k, t) + {k} {
        if x in Within(w, a, t) { assert x in Above(w, a); }
      }
      assert Within(w, a, t) == Within(w, k, t) + {k};
      CountWith(Within(w, k, t), k);
    }
  }

  lemma NextAbove(w: set<PeerId>, a: PeerId, t: PeerId)
    requires a >= t && Above(w, a) != {}
    ensures var k := Least(Above(w, a)); k > t && |Above(w, k)| == |Above(w, a)| - 1
  {
    var k := Least(Above(w, a));
    forall x ensures x in Above(w, a) <==> x in Above(w, k) + {k} {
      if x in Above(w, a) { assert k <= x; }
    }
    assert Above(w, a) == Above(w, k) + {k};
    CountWith(Above(w, k), k);
  }

  /** How many rounds until one that moves the slot in any case, counting that one. */
  function Wait(round: nat): nat {
    1 + (3 - round % 3) % 3
  }

  /** A bound on the rounds until `t` has the optimistic slot. */
  function RoundsTo(w: set<PeerId>, optimistic: Option<PeerId>, round: nat, t: PeerId): int {
    3 * ((if optimistic.Some? && optimistic.value in w then Distance(w, optimistic, t) else |w|) - 1) + Wait(round)
  }

  /** `t` has the optimistic slot and is served. */
  predicate HasSlot(s: State, t: PeerId) {
    s.optimistic == Some(t) && t in Unchoked(s)
  }

  /** At the end of some round of the run `t` has the optimistic slot and is served. */
  predicate Served(slots: nat, s: State, ops: seq<Op>, t: PeerId)
    decreases |ops|
  {
    ops != [] &&
    var s' := Step(slots, s, ops[0]);
    (ops[0] == Rechoke && HasSlot(s', t)) || Served(slots, s', ops[1..], t)
  }

  /** The peers that want data are the same all through the run. */
  predicate Steady(slots: nat, s: State, ops: seq<Op>, w: set<PeerId>)
    decreases |ops|
  {
    Wanting(s) == w && (ops == [] || Steady(slots, Step(slots, s, ops[0]), ops[1..], w))
  }

  function Rounds(ops: seq<Op>): nat {
    if ops == [] then 0 else (if ops[0] == Rechoke then 1 else 0) + Rounds(ops[1..])
  }

  /** A round either brings the slot to `t` or leaves fewer rounds to go. */
  lemma RoundIsNearer(slots: nat, s: State, t: PeerId)
    requires slots > 1 && t in Wanting(s)
    ensures var next := OptimisticAfter(slots, s);
      || next == Some(t)
      || RoundsTo(Wanting(s), next, s.round + 1, t) < RoundsTo(Wanting(s), s.optimistic, s.round, t)
    ensures OptimisticAfter(slots, s).Some? && OptimisticAfter(slots, s).value in Wanting(s)
  {
    MoveIsNearer(Wanting(s), s.optimistic, t);
    DistanceBound(Wanting(s), s.optimistic, t);
  }

  lemma RoundGivesSlot(slots: nat, s: State, t: PeerId)
    requires slots > 1 && t in Wanting(s) && OptimisticAfter(slots, s) == Some(t)
    ensures HasSlot(Step(slots, s, Rechoke), t)
  {
    OptimisticIsChosen(slots, s, t);
  }

  lemma OptimisticIsChosen(slots: nat, s: State, t: PeerId)
    requires slots > 1 && t in Wanting(s) && OptimisticAfter(slots, s) == Some(t)
    ensures t in ChosenBy(slots, s)
  {
    CandidatesAre(s.peers, s.peers.Keys);
    ChoiceCounts(Candidates(s.peers), slots, Some(t));
    WantingCandidates(s);
  }

  lemma RoundGetsNearer(slots: nat, s: State, t: PeerId)
    requires slots > 1 && t in Wanting(s)
    ensures var s' := Step(slots, s, Rechoke);
      || HasSlot(s', t)
      || RoundsTo(Wanting(s), s'.optimistic, s'.round, t) < RoundsTo(Wanting(s), s.optimistic, s.round, t)
  {
    if OptimisticAfter(slots, s) == Some(t) {
      RoundGivesSlot(slots, s, t);
    } else {
      RoundIsNearer(slots, s, t);
    }
  }

  lemma OtherKeepsDistance(slots: nat, s: State, op: Op, t: PeerId)
    requires op != Rechoke && t in Wanting(s) && Wanting(Step(slots, s, op)) == Wanting(s)
    ensures var s' := Step(slots, s, op);
      RoundsTo(Wanting(s), s'.optimistic, s'.round, t) == RoundsTo(Wanting(s), s.optimistic, s.round, t)
  {
    if op.Unregister? && s.optimistic == Some(op.id) {
      assert op.id !in Wanting(Step(slots, s, op));
    }
  }

  lemma {:induction false} ServedInTime(slots: nat, s: State, ops: seq<Op>, w: set<PeerId>, t: PeerId)
    requires slots > 1 && t in w && Steady(slots, s, ops, w) && Rounds(ops) >= RoundsTo(w, s.optimistic, s.round, t)
    ensures Served(slots, s, ops, t)
    decreases |ops|
  {
    if ops != [] {
      var s' := Step(slots, s, ops[0]);
      assert Wanting(s') == w;
      if ops[0] == Rechoke {
        RoundGetsNearer(slots, s, t);
      } else {
        OtherKeepsDistance(slots, s, ops[0], t);
      }
      if !(ops[0] == Rechoke && HasSlot(s', t)) {
        ServedInTime(slots, s', ops[1..], w, t);
      }
    }
  }

  /** With at least two slots and the same peers wanting data throughout, three rounds for each of them are enough, from
      any state and whatever else happens meanwhile, for every one to have had the optimistic slot and been served with
      it. */
  lemma OptimisticFairness(slots: nat, s: State, ops: seq<Op>, w: set<PeerId>, t: PeerId)
    requires slots > 1 && t in w && Steady(slots, s, ops, w) && Rounds(ops) >= OPTIMISTIC_EVERY * |w|
    ensures exists k :: 0 <= k < |ops| && ops[k] == Rechoke && HasSlot(Run(slots, s, ops[..k + 1]), t)
  {
    DistanceBound(w, s.optimistic, t);
    ServedInTime(slots, s, ops, w, t);
    var k := ServedAt(slots, s, ops, t);
  }

  lemma {:induction false} ServedAt(slots: nat, s: State, ops: seq<Op>, t: PeerId) returns (k: nat)
    requires Served(slots, s, ops, t)
    ensures k < |ops| && ops[k] == Rechoke
    ensures HasSlot(Run(slots, s, ops[..k + 1]), t)
    decreases |ops|
  {
    var s' := Step(slots, s, ops[0]);
    if ops[0] == Rechoke && HasSlot(s', t) {
      k := 0;
      assert ops[..1][1..] == [];
    } else {
      var j := ServedAt(slots, s', ops[1..], t);
      k := j + 1;
      assert ops[..k + 1][1..] == ops[1..][..j + 1];
    }
  }

  // ---- the class -------------------------------------------------------------------

  /** The choker itself. Every method is one step of the machine above. */
  class Choker {
    const slots: nat
    var peers: map<PeerId, Slot>
    var nextId: PeerId
    var optimistic: Option<PeerId>
    var round: nat

    ghost function Now(): State
      reads this
    {
      State(peers, nextId, optimistic, round)
    }

    constructor (slots: nat)
      ensures this.slots == slots && Now() == Start && Safe(slots, Now())
    {
      this.slots, this.peers, this.nextId, this.optimistic, this.round := slots, map[], 0, None, 0;
      new;
      assert Unchoked(Now()) == {} && Wanting(Now()) == {};
    }

    method Register() returns (id: PeerId)
      requires Safe(slots, Now())
      modifies this
      ensures Now() == Step(slots, old(Now()), Op.Register) && Safe(slots, Now())
      ensures id == old(nextId) && id !in old(peers) && id in peers
    {
      StepIsSafe(slots, Now(), Op.Register);
      id := nextId;
      nextId := nextId + 1;
      peers := peers[id := Slot(false, false, 0, 0)];
    }

    method Unregister(id: PeerId)
      requires Safe(slots, Now())
      modifies this
      ensures Now() == Step(slots, old(Now()), Op.Unregister(id)) && Safe(slots, Now())
    {
      StepIsSafe(slots, Now(), Op.Unregister(id));
      peers := peers - {id};
      if optimistic == Some(id) {
        optimistic := None;
      }
    }

    method SetInterested(id: PeerId, interested: bool)
      requires Safe(slots, Now())
      modifies this
      ensures Now() == Step(slots, old(Now()), Op.SetInterested(id, interested)) && Safe(slots, Now())
    {
      StepIsSafe(slots, Now(), Op.SetInterested(id, interested));
      if id in peers {
        var slot := peers[id].(interested := interested);
        if !interested {
          slot := slot.(unchoked := false);
        }
        peers := peers[id := slot];
      }
    }

    method GrantIfFree(id: PeerId) returns (granted: bool)
      requires Safe(slots, Now())
      modifies this
      ensures Now() == Step(slots, old(Now()), Op.GrantIfFree(id)) && Safe(slots, Now())
      ensures granted <==> id in Unchoked(Now())
    {
      StepIsSafe(slots, Now(), Op.GrantIfFree(id));
      var holding := set p | p in peers && peers[p].unchoked;
      assert holding == Unchoked(Now());
      var held := |holding|;
      if id !in peers {
        return false;
      }
      if peers[id].unchoked {
        return true;
      }
      if peers[id].interested && held < slots {
        peers := peers[id := peers[id].(unchoked := true)];
        return true;
      }
      return false;
    }

    method RecordUpload(id: PeerId, bytes: nat)
      requires Safe(slots, Now())
      modifies this
      ensures Now() == Step(slots, old(Now()), Op.RecordUpload(id, bytes)) && Safe(slots, Now())
    {
      StepIsSafe(slots, Now(), Op.RecordUpload(id, bytes));
      if id in peers {
        peers := peers[id := peers[id].(uploaded := peers[id].uploaded + bytes)];
      }
    }

    method RecordDownload(id: PeerId, bytes: nat)
      requires Safe(slots, Now())
      modifies this
      ensures Now() == Step(slots, old(Now()), Op.RecordDownload(id, bytes)) && Safe(slots, Now())
    {
      StepIsSafe(slots, Now(), Op.RecordDownload(id, bytes));
      if id in peers {
        peers := peers[id := peers[id].(downloaded := peers[id].downloaded + bytes)];
      }
    }

    method Rechoke()
      requires Safe(slots, Now())
      modifies this
      ensures Now() == Step(slots, old(Now()), Op.Rechoke) && Safe(slots, Now())
      ensures |Unchoked(Now())| == Min(slots, |Wanting(Now())|)
    {
      ghost var before := Now();
      MoveOptimistic();
      var chosen := Choose(Candidates(peers), slots, optimistic);
      Serve(chosen);
      assert Now() == Step(slots, before, Op.Rechoke);
      StepIsSafe(slots, before, Op.Rechoke);
      RoundServes(slots, before);
    }

    /** Counts the round, and moves the optimistic slot on if it is time or its peer is gone. */
    method MoveOptimistic()
      modifies this`round, this`optimistic
      ensures round == old(round) + 1 && optimistic == OptimisticAfter(slots, old(Now()))
    {
      var wanting := set id | id in peers && peers[id].interested;
      assert wanting == Wanting(Now());
      round := round + 1;
      if slots > 1 && (round % OPTIMISTIC_EVERY == 1 || optimistic.None? || optimistic.value !in wanting) {
        optimistic := NextOptimistic(wanting, optimistic);
      }
    }

    /** Marks who is served and starts the next window, peer by peer. */
    method Serve(chosen: set<PeerId>)
      modifies this`peers
      ensures peers == AfterRound(old(peers), chosen)
    {
      var todo := peers.Keys;
      while todo != {}
        invariant todo <= peers.Keys == old(peers).Keys
        invariant forall id :: id in peers ==>
          peers[id] == if id in todo then old(peers)[id] else AfterRound(old(peers), chosen)[id]
        decreases todo
      {
        var id :| id in todo;
        peers := peers[id := Slot(peers[id].interested, id in chosen, 0, 0)];
        todo := todo - {id};
      }
    }
  }
}
