/** How a connected peer comes to hear of every verified piece (`HaveMap` in src/seeder.rs, `Serving` in
    src/serving.rs). Writers set a bit and then count it in the version; a connection reads the version first and takes
    a snapshot after. The protocol is a state machine of those atomic steps, in any order; the classes do the same one
    call at a time. */
module HaveProtocol {
  import opened Numbers

  // ---- bit maps ------------------------------------------------------------------

  function Count(bits: seq<bool>): nat {
    if bits == [] then 0 else (if bits[0] then 1 else 0) + Count(bits[1..])
  }

  /** Every piece of `a` is one of `b`. */
  predicate Covers(b: seq<bool>, a: seq<bool>) {
    |a| == |b| && forall i :: 0 <= i < |a| && a[i] ==> b[i]
  }

  lemma {:induction false} CountSet(bits: seq<bool>, i: nat)
    requires i < |bits| && !bits[i]
    ensures Count(bits[i := true]) == Count(bits) + 1
    decreases |bits|
  {
    if i == 0 {
      assert bits[0 := true][1..] == bits[1..];
    } else {
      assert bits[i := true][1..] == bits[1..][i - 1 := true];
      CountSet(bits[1..], i - 1);
    }
  }

  /** A covered map has no more pieces, and if it has as many it is the same map. */
  lemma {:induction false} CoveredCount(a: seq<bool>, b: seq<bool>)
    requires Covers(b, a)
    ensures Count(a) <= Count(b)
    ensures Count(a) == Count(b) ==> a == b
    decreases |a|
  {
    if a != [] {
      assert forall i :: 0 <= i < |a| - 1 ==> a[1..][i] == a[i + 1] && b[1..][i] == b[i + 1];
      CoveredCount(a[1..], b[1..]);
      assert a == [a[0]] + a[1..] && b == [b[0]] + b[1..];
    }
  }

  // ---- the machine -----------------------------------------------------------------

  /** Where a connection is: before its first read, between a version read and the snapshot that goes with it, sending
      what a snapshot has from piece `next` on, waiting for the next tick, or gone. */
  datatype Phase =
    | Fresh
    | Began
    | Idle
    | Ticked
    | Sending(now: seq<bool>, next: nat)
    | Closed

  /** `told` is what the peer has been sent: the first bit map, and the pieces announced since, in order. */
  datatype Conn = Conn(phase: Phase, seen: nat, advertised: seq<bool>, first: seq<bool>, haves: seq<nat>)

  /** `pending` writers have set their bit and not yet counted it. */
  datatype World = World(bits: seq<bool>, version: nat, pending: nat, conn: Conn)

  datatype Action =
    | SetBit(piece: nat)
    | BumpVersion
    | BeginRead
    | BeginSnapshot
    | TickRead
    | TickSnapshot
    | SendNext
    | TickEnd
    | WriteFails

  function Begin(total: nat): World {
    World(seq(total, i => false), 0, 0, Conn(Fresh, 0, [], [], []))
  }

  /** One turn of the announcing loop. */
  function Announce(c: Conn): Conn
    requires c.phase.Sending? && c.phase.next < |c.phase.now| && |c.advertised| == |c.phase.now|
  {
    var i := c.phase.next;
    if c.phase.now[i] && !c.advertised[i]
    then c.(phase := Sending(c.phase.now, i + 1), advertised := c.advertised[i := true], haves := c.haves + [i])
    else c.(phase := Sending(c.phase.now, i + 1))
  }

  /** One atomic step; a step that cannot be taken changes nothing. */
  function Apply(w: World, a: Action): World {
    var c := w.conn;
    match a
    case SetBit(i) => if i < |w.bits| && !w.bits[i] then w.(bits := w.bits[i := true], pending := w.pending + 1) else w
    case BumpVersion => if w.pending > 0 then w.(version := w.version + 1, pending := w.pending - 1) else w
    case BeginRead => if c.phase.Fresh? then w.(conn := c.(phase := Began, seen := w.version)) else w
    case BeginSnapshot =>
      if c.phase.Began? then w.(conn := c.(phase := Idle, advertised := w.bits, first := w.bits)) else w
    case TickRead =>
      if c.phase.Idle? && w.version != c.seen then w.(conn := c.(phase := Ticked, seen := w.version)) else w
    case TickSnapshot => if c.phase.Ticked? then w.(conn := c.(phase := Sending(w.bits, 0))) else w
    case SendNext =>
      if c.phase.Sending? && c.phase.next < |c.phase.now| && |c.advertised| == |c.phase.now|
      then w.(conn := Announce(c)) else w
    case TickEnd => if c.phase.Sending? && c.phase.next == |c.phase.now| then w.(conn := c.(phase := Idle)) else w
    case WriteFails => w.(conn := c.(phase := Closed))
  }

  function Run(w: World, actions: seq<Action>): World
    decreases |actions|
  {
    if actions == [] then w else Run(Apply(w, actions[0]), actions[1..])
  }

  // ---- what every run keeps -----------------------------------------------------------

  /** What the peer has been told agrees with the record of it, and nothing was told twice. */
  predicate ToldOnce(c: Conn) {
    && |c.first| == |c.advertised|
    && (forall k :: 0 <= k < |c.haves| ==> c.haves[k] < |c.first| && !c.first[c.haves[k]])
    && (forall j, k :: 0 <= j < k < |c.haves| ==> c.haves[j] != c.haves[k])
    && (forall i :: 0 <= i < |c.advertised| ==> (c.advertised[i] <==> c.first[i] || i in c.haves))
  }

  predicate Sound(w: World) {
    var c := w.conn;
    && w.version + w.pending == Count(w.bits)
    && c.seen <= w.version
    && ToldOnce(c)
    && (c.phase.Fresh? || c.phase.Began? || c.phase.Closed? || Covers(w.bits, c.advertised))
    && (c.phase.Fresh? || c.phase.Began? ==> c.advertised == [] && c.haves == [])
    && (c.phase.Closed? ==> c.advertised == [] || Covers(w.bits, c.advertised))
    && (c.phase.Idle? ==> c.seen <= Count(c.advertised))
    && (c.phase.Sending? ==>
      && Covers(w.bits, c.phase.now) && c.phase.next <= |c.phase.now| && c.seen <= Count(c.phase.now)
      && forall i :: 0 <= i < c.phase.next && c.phase.now[i] ==> c.advertised[i])
  }

  lemma AnnounceKeepsTold(c: Conn)
    requires c.phase.Sending? && c.phase.next < |c.phase.now| && |c.advertised| == |c.phase.now| && ToldOnce(c)
    ensures ToldOnce(Announce(c))
  {
    var i, c' := c.phase.next, Announce(c);
    if c.phase.now[i] && !c.advertised[i] {
      assert i !in c.haves && !c.first[i];
      assert c'.haves[|c.haves|] == i;
      forall k | 0 <= k < |c'.advertised| ensures c'.advertised[k] <==> c'.first[k] || k in c'.haves {
        assert k in c'.haves <==> k in c.haves || k == i;
      }
    }
  }

  lemma SetBitKeepsSound(w: World, i: nat)
    requires Sound(w)
    ensures Sound(Apply(w, SetBit(i)))
  {
    if i < |w.bits| && !w.bits[i] { CountSet(w.bits, i); }
  }

  lemma SendKeepsSound(w: World)
    requires Sound(w)
    ensures Sound(Apply(w, SendNext))
  {
    var c := w.conn;
    if c.phase.Sending? && c.phase.next < |c.phase.now| && |c.advertised| == |c.phase.now| { AnnounceKeepsTold(c); }
  }

  lemma TickEndKeepsSound(w: World)
    requires Sound(w)
    ensures Sound(Apply(w, TickEnd))
  {
    var c := w.conn;
    if c.phase.Sending? && c.phase.next == |c.phase.now| { CoveredCount(c.phase.now, c.advertised); }
  }

  lemma ApplyKeepsSound(w: World, a: Action)
    requires Sound(w)
    ensures Sound(Apply(w, a))
  {
    match a
    case SetBit(i) => SetBitKeepsSound(w, i);
    case SendNext => SendKeepsSound(w);
    case TickEnd => TickEndKeepsSound(w);
    case _ =>
  }

  lemma {:induction false} RunKeepsSound(w: World, actions: seq<Action>)
    requires Sound(w)
    ensures Sound(Run(w, actions))
    decreases |actions|
  {
    if actions != [] {
      ApplyKeepsSound(w, actions[0]);
      RunKeepsSound(Apply(w, actions[0]), actions[1..]);
    }
  }

  lemma {:induction false} CountNone(bits: seq<bool>)
    requires forall i :: 0 <= i < |bits| ==> !bits[i]
    ensures Count(bits) == 0
  {
    if bits != [] { CountNone(bits[1..]); }
  }

  lemma BeginIsSound(total: nat)
    ensures Sound(Begin(total))
  {
    CountNone(Begin(total).bits);
  }

  /** Where the protocol can get to by any run, of any interleaving, on any number of pieces. */
  ghost predicate Reachable(w: World) {
    exists total: nat, actions: seq<Action> :: w == Run(Begin(total), actions)
  }

  lemma ReachableIsSound(w: World)
    requires Reachable(w)
    ensures Sound(w)
  {
    var total: nat, actions: seq<Action> :| w == Run(Begin(total), actions);
    BeginIsSound(total);
    RunKeepsSound(Begin(total), actions);
  }

  /** In every run, however the steps interleave, the peer is told only of pieces that are verified, and of each at most
      once. */
  lemma ToldOnlyVerifiedOnce(w: World)
    requires Reachable(w)
    ensures ToldOnce(w.conn)
    ensures forall i :: 0 <= i < |w.conn.advertised| && w.conn.advertised[i] ==> i < |w.bits| && w.bits[i]
  {
    ReachableIsSound(w);
  }

  // ---- once the writers are quiet --------------------------------------------------------

  predicate IsWriter(a: Action) {
    a.SetBit? || a.BumpVersion?
  }

  predicate Quiet(actions: seq<Action>) {
    forall k :: 0 <= k < |actions| ==> !IsWriter(actions[k])
  }

  /** The connection is up to date, or is sending what will make it so. */
  predicate CatchingUp(w: World) {
    var c := w.conn;
    && w.pending == 0
    && match c.phase
       case Idle => c.advertised == w.bits
       case Ticked => c.seen == w.version
       case Sending(now, _) => now == w.bits
       case Closed => true
       case _ => false
  }

  lemma QuietKeepsCatching(w: World, a: Action)
    requires Sound(w) && CatchingUp(w) && !IsWriter(a)
    ensures CatchingUp(Apply(w, a)) && Apply(w, a).bits == w.bits
  {
    var c := w.conn;
    if a.TickEnd? && c.phase.Sending? && c.phase.next == |c.phase.now| {
      assert c.advertised == w.bits;
    }
  }

  /** The version says nothing new only to a connection that has been told everything. */
  lemma TickReadCatches(w: World)
    requires Sound(w) && w.pending == 0 && w.conn.phase.Idle?
    ensures CatchingUp(Apply(w, TickRead))
  {
    if w.version == w.conn.seen { CoveredCount(w.conn.advertised, w.bits); }
  }

  lemma {:induction false} QuietRunCatches(w: World, actions: seq<Action>)
    requires Sound(w) && CatchingUp(w) && Quiet(actions)
    ensures CatchingUp(Run(w, actions)) && Run(w, actions).bits == w.bits
    decreases |actions|
  {
    if actions != [] {
      QuietKeepsCatching(w, actions[0]);
      ApplyKeepsSound(w, actions[0]);
      QuietRunCatches(Apply(w, actions[0]), actions[1..]);
    }
  }

  /** From any point of any run at which no writer is midway, if no writer moves any more, then once a tick has begun
      and the connection is idle again the peer has been told of exactly the verified pieces. */
  lemma QuietTickTellsAll(w: World, after: seq<Action>)
    requires Reachable(w) && w.pending == 0 && w.conn.phase.Idle? && Quiet(after)
    ensures var w' := Run(Apply(w, TickRead), after);
      && w'.bits == w.bits
      && (w'.conn.phase.Idle? ==>
        && |w'.conn.first| == |w.bits|
        && forall i :: 0 <= i < |w.bits| ==> (w.bits[i] <==> w'.conn.first[i] || i in w'.conn.haves))
  {
    ReachableIsSound(w);
    TickReadCatches(w);
    ApplyKeepsSound(w, TickRead);
    var w1 := Apply(w, TickRead);
    QuietRunCatches(w1, after);
    RunKeepsSound(w1, after);
  }

  // ---- one call at a time ------------------------------------------------------------------

  lemma {:induction false} RunAppend(w: World, a: seq<Action>, b: seq<Action>)
    ensures Run(w, a + b) == Run(Run(w, a), b)
    decreases |a|
  {
    if a == [] {
      assert a + b == b;
    } else {
      assert (a + b)[1..] == a[1..] + b;
      RunAppend(Apply(w, a[0]), a[1..], b);
    }
  }

  /** The steps of one tick up to the piece `i`. */
  function TickUpTo(i: nat): seq<Action> {
    [TickRead, TickSnapshot] + seq(i, _ => SendNext)
  }

  lemma BeginRun(w: World)
    requires w.conn.phase.Fresh?
    ensures Run(w, [BeginRead, BeginSnapshot])
         == w.(conn := w.conn.(phase := Idle, seen := w.version, advertised := w.bits, first := w.bits))
  {
    var w1 := Apply(w, BeginRead);
    assert [BeginRead, BeginSnapshot][1..] == [BeginSnapshot] && [BeginSnapshot][1..] == [];
    assert Run(w1, [BeginSnapshot]) == Apply(w1, BeginSnapshot);
  }

  lemma TickStart(w: World)
    requires w.conn.phase.Idle? && w.version != w.conn.seen
    ensures Run(w, TickUpTo(0)) == w.(conn := w.conn.(phase := Sending(w.bits, 0), seen := w.version))
  {
    assert TickUpTo(0) == [TickRead, TickSnapshot];
    var w1 := Apply(w, TickRead);
    assert TickUpTo(0)[1..] == [TickSnapshot];
    assert [TickSnapshot][1..] == [];
    assert Run(w1, [TickSnapshot]) == Apply(w1, TickSnapshot);
  }

  lemma TickMore(w: World, i: nat)
    ensures Run(w, TickUpTo(i + 1)) == Apply(Run(w, TickUpTo(i)), SendNext)
  {
    assert TickUpTo(i + 1) == TickUpTo(i) + [SendNext];
    RunAppend(w, TickUpTo(i), [SendNext]);
    assert [SendNext][1..] == [];
  }

  datatype Message = Bitfield(bits: seq<bool>) | HaveAll | HaveNone | Have(piece: nat) | Choke | Unchoke

  /** What the first message says of `total` pieces. */
  function Meaning(m: Message, total: nat): seq<bool> {
    match m
    case Bitfield(bits) => bits
    case HaveAll => seq(total, i => true)
    case _ => seq(total, i => false)
  }

  /** The bit map as it is first sent: a peer with the Fast Extension is told all or none in one word. */
  function FirstMessage(fast: bool, bits: seq<bool>): Message {
    if !fast then Bitfield(bits)
    else if bits != [] && (forall i :: 0 <= i < |bits| ==> bits[i]) then HaveAll
    else if forall i :: 0 <= i < |bits| ==> !bits[i] then HaveNone
    else Bitfield(bits)
  }

  lemma FirstMessageMeans(fast: bool, bits: seq<bool>)
    ensures Meaning(FirstMessage(fast, bits), |bits|) == bits
  {
  }

  function HavesIn(wire: seq<Message>): seq<nat> {
    if wire == [] then []
    else HavesIn(wire[..|wire| - 1]) + (if wire[|wire| - 1].Have? then [wire[|wire| - 1].piece] else [])
  }

  lemma HavesSnoc(wire: seq<Message>, m: Message)
    ensures HavesIn(wire + [m]) == HavesIn(wire) + (if m.Have? then [m.piece] else [])
  {
    assert (wire + [m])[..|wire|] == wire;
  }

  /** The chokes and unchokes among what was written. */
  function ChokesIn(wire: seq<Message>): seq<Message> {
    if wire == [] then []
    else
      var last := wire[|wire| - 1];
      ChokesIn(wire[..|wire| - 1]) + if last.Choke? || last.Unchoke? then [last] else []
  }

  /** What is told of a change of who is served. */
  function Told(before: bool, after: bool): seq<Message> {
    if before == after then [] else [if after then Unchoke else Choke]
  }

  lemma ChokesSnoc(wire: seq<Message>, m: Message)
    ensures ChokesIn(wire + [m]) == ChokesIn(wire) + (if m.Choke? || m.Unchoke? then [m] else [])
  {
    assert (wire + [m])[..|wire|] == wire;
  }

  /** Whether a peer that reads the wire believes it is served: not to begin with, and then as it was told last. */
  function Believes(wire: seq<Message>): bool {
    wire != [] &&
    var last := wire[|wire| - 1];
    last.Unchoke? || (!last.Choke? && Believes(wire[..|wire| - 1]))
  }

  lemma {:induction false} BelievesChokes(wire: seq<Message>)
    ensures Believes(ChokesIn(wire)) == Believes(wire)
  {
    if wire != [] {
      var front, last := wire[..|wire| - 1], wire[|wire| - 1];
      BelievesChokes(front);
      if last.Choke? || last.Unchoke? {
        assert (ChokesIn(front) + [last])[..|ChokesIn(front)|] == ChokesIn(front);
      } else {
        assert ChokesIn(front) + [] == ChokesIn(front);
      }
    }
  }

  lemma ToldIsBelieved(chokes: seq<Message>, before: bool, after: bool)
    requires Believes(chokes) == before
    ensures Believes(chokes + Told(before, after)) == after
  {
    if before == after {
      assert chokes + [] == chokes;
    }
  }

  lemma ToldOnWire(wire: seq<Message>, wire': seq<Message>, before: bool, after: bool)
    requires ChokesIn(wire') == ChokesIn(wire) + Told(before, after)
    ensures Believes(wire) == before ==> Believes(wire') == after
  {
    BelievesChokes(wire);
    BelievesChokes(wire');
    if Believes(wire) == before {
      ToldIsBelieved(ChokesIn(wire), before, after);
    }
  }

  class HaveMap {
    var bits: seq<bool>
    var version: nat

    ghost predicate Valid()
      reads this
    {
      version == Count(bits)
    }

    constructor (total: nat)
      ensures Valid() && |bits| == total && forall i :: 0 <= i < total ==> !bits[i]
    {
      bits := seq(total, i => false);
      version := 0;
      new;
      CountNone(bits);
    }

    /** A writer's two steps: the bit, then the version. */
    method Set(index: nat)
      requires Valid()
      modifies this
      ensures Valid()
      ensures forall c ::
        World(bits, version, 0, c) == Run(World(old(bits), old(version), 0, c), [SetBit(index), BumpVersion])
    {
      forall c ensures Run(World(bits, version, 0, c),
            [SetBit(index), BumpVersion]) == Apply(Apply(World(bits, version, 0, c), SetBit(index)), BumpVersion) {
        assert [SetBit(index), BumpVersion][1..] == [BumpVersion] && [BumpVersion][1..] == [];
      }
      if index < |bits| && !bits[index] {
        CountSet(bits, index);
        bits := bits[index := true];
        version := version + 1;
      }
    }
  }

  /** A peer's connection, as far as what it is told goes; `wire` is what has been written to it. */
  class Serving {
    var seenVersion: nat
    var advertised: seq<bool>
    var toldUnchoked: bool
    var wire: seq<Message>

    ghost function At(phase: Phase): Conn
      reads this
    {
      Conn(phase, seenVersion, advertised, if wire == [] then [] else Meaning(wire[0], |advertised|), HavesIn(wire))
    }

    /** `begin`: the version is read before the bits. */
    constructor (have: HaveMap, fast: bool)
      ensures At(Idle)
           == Run(World(have.bits, have.version, 0, Conn(Fresh, 0, [], [], [])), [BeginRead, BeginSnapshot]).conn
      ensures wire == [FirstMessage(fast, have.bits)] && !toldUnchoked && !Believes(wire)
    {
      seenVersion := have.version;
      advertised := have.bits;
      toldUnchoked := false;
      wire := [FirstMessage(fast, have.bits)];
      new;
      FirstMessageMeans(fast, have.bits);
      BeginRun(World(have.bits, have.version, 0, Conn(Fresh, 0, [], [], [])));
      assert wire == [] + [FirstMessage(fast, have.bits)];
      HavesSnoc([], FirstMessage(fast, have.bits));
    }

    /** One message, if the connection still takes it. */
    method Write(m: Message, budget: nat) returns (ok: bool, left: nat)
      modifies this`wire
      ensures ok <==> budget > 0
      ensures wire == if ok then old(wire) + [m] else old(wire)
      ensures left == if ok then budget - 1 else 0
    {
      if budget == 0 {
        return false, 0;
      }
      wire := wire + [m];
      return true, budget - 1;
    }

    /** One tick of the machine from `c`, to its end. */
    ghost predicate Announced(have: HaveMap, c: Conn)
      reads this, have
    {
      if have.version == c.seen then At(Idle) == c
      else At(Idle) == Apply(Run(World(have.bits, have.version, 0, c), TickUpTo(|have.bits|)), TickEnd).conn
    }

    /** One tick of the machine from `c`, up to a write that failed. */
    ghost predicate Interrupted(have: HaveMap, c: Conn)
      reads this, have
    {
      exists i: nat ::
        i < |have.bits| && At(Sending(have.bits, i)) == Run(World(have.bits, have.version, 0, c), TickUpTo(i)).conn
    }

    /** `announce_new_pieces` is one tick of the machine; if a write fails it stops midway. `budget` writes go
        through. */
    method AnnounceNewPieces(have: HaveMap, budget: nat) returns (ok: bool, left: nat)
      requires wire != [] && |advertised| == |have.bits|
      modifies this
      ensures wire != [] && |advertised| == |have.bits| && toldUnchoked == old(toldUnchoked)
      ensures ChokesIn(wire) == old(ChokesIn(wire)) && wire[0] == old(wire[0])
      ensures have.version == old(seenVersion) ==> ok && wire == old(wire)
      ensures ok ==> Announced(have, old(At(Idle)))
      ensures !ok ==> Interrupted(have, old(At(Idle)))
    {
      left := budget;
      if have.version == seenVersion {
        return true, left;
      }
      ghost var w := World(have.bits, have.version, 0, At(Idle));
      TickStart(w);
      seenVersion := have.version;
      var now := have.bits;
      for index := 0 to |now|
        invariant wire != [] && |advertised| == |now| && toldUnchoked == old(toldUnchoked)
        invariant ChokesIn(wire) == old(ChokesIn(wire)) && wire[0] == old(wire[0])
        invariant now == w.bits && World(w.bits, w.version, 0, At(Sending(now, index))) == Run(w, TickUpTo(index))
      {
        TickMore(w, index);
        if now[index] && !advertised[index] {
          HavesSnoc(wire, Have(index));
          ChokesSnoc(wire, Have(index));
          ok, left := Write(Have(index), left);
          if !ok {
            return;
          }
          advertised := advertised[index := true];
        }
      }
      ok := true;
    }

    /** `tick`: the pieces, then whether the peer is served, told once each time it changes. A failed write leaves the
        pieces announced midway, or announced and the choke untold. */
    method Tick(have: HaveMap, allowed: bool, budget: nat) returns (ok: bool)
      requires wire != [] && |advertised| == |have.bits|
      modifies this
      ensures wire != [] && |advertised| == |have.bits|
      ensures ok ==> Announced(have, old(At(Idle))) && toldUnchoked == allowed
      ensures !ok ==>
        (Announced(have, old(At(Idle))) || Interrupted(have, old(At(Idle)))) && toldUnchoked == old(toldUnchoked)
      ensures ChokesIn(wire) == old(ChokesIn(wire)) + Told(old(toldUnchoked), toldUnchoked)
      ensures old(Believes(wire) == toldUnchoked) ==> Believes(wire) == toldUnchoked
      ensures have.version == old(seenVersion) && allowed == old(toldUnchoked) ==> ok && wire == old(wire)
    {
      ghost var before := wire;
      var left;
      ok, left := AnnounceNewPieces(have, budget);
      if ok && allowed != toldUnchoked {
        var m := if allowed then Unchoke else Choke;
        HavesSnoc(wire, m);
        ChokesSnoc(wire, m);
        ok, left := Write(m, left);
        if ok {
          toldUnchoked := allowed;
        }
      }
      ToldOnWire(before, wire, old(toldUnchoked), toldUnchoked);
    }
  }
}
