/** Reservations of many threads at once (src/ratelimit.rs): a limiter's lock is let go of before the next one up is
    taken, so that other reservations come in between, at every level. */
module RateSharing {
  import opened Numbers
  import opened RateLimit

  // ---- the machine -----------------------------------------------------------------

  /** A reservation on its way up: the limiter it takes next, if it is not done, and the longest wait so far. */
  datatype Climber = Climber(who: nat, call: Call, next: Option<nat>, wait: real)

  /** That a reservation was accounted for. */
  datatype Taken = Taken(climber: nat, call: Call)

  /** The limiters, every reservation there has been, and for each limiter what was accounted for there, in order. */
  datatype World = World(w: seq<Bucket>, climbers: seq<Climber>, logs: seq<seq<Taken>>)

  /** A thread asks for bytes; a reservation is accounted for at the next limiter on its way. */
  datatype Move = Enter(who: nat, call: Call) | Up(climber: nat)

  predicate Shaped(parents: Parents, g: World) {
    && Planted(parents) && |g.w| == |parents| == |g.logs|
    && forall i :: 0 <= i < |g.climbers| ==> OnTheWay(parents, g.climbers[i])
  }

  predicate OnTheWay(parents: Parents, c: Climber)
    requires Planted(parents)
  {
    c.who < |parents| && (c.next.Some? ==> c.next.value < |parents| && Under(parents, c.who, c.next.value))
  }

  function Start(w: seq<Bucket>): World {
    World(w, [], seq(|w|, _ => []))
  }

  /** One move; a move that cannot be made changes nothing. */
  function Step(parents: Parents, g: World, m: Move): World
    requires Shaped(parents, g)
  {
    match m
    case Enter(who, call) =>
      if who >= |parents| then g else g.(climbers := g.climbers + [Climber(who, call, Some(who), 0.0)])
    case Up(i) => if i >= |g.climbers| || g.climbers[i].next.None? then g else Raised(parents, g, i)
  }

  function Raised(parents: Parents, g: World, i: nat): World
    requires Shaped(parents, g) && i < |g.climbers| && g.climbers[i].next.Some?
  {
    var c := g.climbers[i];
    var l := c.next.value;
    var b := Take(g.w[l], c.call);
    World(g.w[l := b], g.climbers[i := c.(next := parents[l], wait := MaxReal(c.wait, Owed(b)))],
          g.logs[l := g.logs[l] + [Taken(i, c.call)]])
  }

  lemma {:induction false} UnderParent(parents: Parents, who: nat, l: nat)
    requires Planted(parents) && who < |parents| && l < |parents| && Under(parents, who, l) && parents[l].Some?
    ensures Under(parents, who, parents[l].value)
    decreases who
  {
    if who != l {
      UnderParent(parents, parents[who].value, l);
    }
  }

  lemma StepShaped(parents: Parents, g: World, m: Move)
    requires Shaped(parents, g)
    ensures Shaped(parents, Step(parents, g, m))
  {
    if m.Up? && m.climber < |g.climbers| && g.climbers[m.climber].next.Some? {
      var c := g.climbers[m.climber];
      if parents[c.next.value].Some? {
        UnderParent(parents, c.who, c.next.value);
      }
    }
  }

  function RunMoves(parents: Parents, g: World, moves: seq<Move>): World
    requires Shaped(parents, g)
    decreases |moves|
  {
    if moves == [] then g
    else
      StepShaped(parents, g, moves[0]);
      RunMoves(parents, Step(parents, g, moves[0]), moves[1..])
  }

  ghost predicate Reachable(parents: Parents, w: seq<Bucket>, g: World) {
    && Planted(parents) && |w| == |parents|
    && exists moves :: g == RunMoves(parents, Start(w), moves)
  }

  // ---- what every run keeps --------------------------------------------------------

  function CallsOf(log: seq<Taken>): (calls: seq<Call>)
    ensures |calls| == |log|
  {
    seq(|log|, k requires 0 <= k < |log| => log[k].call)
  }

  /** A reservation has been accounted for at `l`: it moves through `l`, and has been there. */
  predicate Passed(parents: Parents, c: Climber, l: nat)
    requires Planted(parents) && OnTheWay(parents, c)
  {
    Under(parents, c.who, l) && !(c.next.Some? && Under(parents, c.next.value, l))
  }

  function Times(log: seq<Taken>, i: nat): nat {
    if log == [] then 0 else Times(log[..|log| - 1], i) + if log[|log| - 1].climber == i then 1 else 0
  }

  /** What the reservations that have been at `l` come to. */
  function Moved(parents: Parents, climbers: seq<Climber>, l: nat): nat
    requires Planted(parents) && forall i :: 0 <= i < |climbers| ==> OnTheWay(parents, climbers[i])
  {
    if climbers == [] then 0
    else
      var c := climbers[|climbers| - 1];
      Moved(parents, climbers[..|climbers| - 1], l) + if Passed(parents, c, l) then c.call.n else 0
  }

  /** Each entry of a log is of a reservation whose wait is at least what the limiter asked for then. */
  ghost predicate WaitsFor(b: Bucket, climbers: seq<Climber>, log: seq<Taken>) {
    forall k :: 0 <= k < |log| ==> EntryHolds(b, climbers, log, k)
  }

  ghost predicate EntryHolds(b: Bucket, climbers: seq<Climber>, log: seq<Taken>, k: nat)
    requires k < |log|
  {
    && log[k].climber < |climbers| && log[k].call == climbers[log[k].climber].call
    && Owed(Run(b, CallsOf(log[..k + 1]))) <= climbers[log[k].climber].wait
  }

  ghost predicate OnceEach(parents: Parents, climbers: seq<Climber>, log: seq<Taken>, l: nat)
    requires Planted(parents) && forall i :: 0 <= i < |climbers| ==> OnTheWay(parents, climbers[i])
  {
    && (forall i :: 0 <= i < |climbers| ==> Times(log, i) == if Passed(parents, climbers[i], l) then 1 else 0)
    && Total(CallsOf(log)) == Moved(parents, climbers, l)
  }

  /** All that holds at one limiter. */
  ghost predicate SoundAt(parents: Parents, w: seq<Bucket>, g: World, l: nat)
    requires Shaped(parents, g) && |w| == |parents| && l < |w|
  {
    && g.w[l] == Run(w[l], CallsOf(g.logs[l]))
    && WaitsFor(w[l], g.climbers, g.logs[l])
    && OnceEach(parents, g.climbers, g.logs[l], l)
  }

  lemma StartSound(parents: Parents, w: seq<Bucket>, l: nat)
    requires Planted(parents) && |w| == |parents| && l < |w|
    ensures Shaped(parents, Start(w)) && SoundAt(parents, w, Start(w), l)
  {
    assert CallsOf([]) == [];
  }

  lemma CallsSnoc(log: seq<Taken>, t: Taken)
    ensures CallsOf(log + [t]) == CallsOf(log) + [t.call]
    ensures Total(CallsOf(log + [t])) == Total(CallsOf(log)) + t.call.n
  {
    assert CallsOf(log + [t])[..|log|] == CallsOf(log);
  }

  lemma RunSnoc(b: Bucket, calls: seq<Call>, c: Call)
    ensures Run(b, calls + [c]) == Take(Run(b, calls), c)
  {
    assert (calls + [c])[..|calls|] == calls;
  }

  lemma TimesSnoc(log: seq<Taken>, t: Taken, i: nat)
    ensures Times(log + [t], i) == Times(log, i) + if t.climber == i then 1 else 0
  {
    assert (log + [t])[..|log|] == log;
  }

  /** A reservation that has not been anywhere. */
  lemma EnterSound(parents: Parents, w: seq<Bucket>, g: World, who: nat, call: Call, l: nat)
    requires Shaped(parents, g) && |w| == |parents| && l < |w| && SoundAt(parents, w, g, l) && who < |parents|
    ensures Shaped(parents, Step(parents, g, Enter(who, call)))
    ensures SoundAt(parents, w, Step(parents, g, Enter(who, call)), l)
  {
    var c := Climber(who, call, Some(who), 0.0);
    var climbers := g.climbers + [c];
    assert climbers[..|g.climbers|] == g.climbers;
    NeverNamed(w[l], g.climbers, g.logs[l]);
    forall k | 0 <= k < |g.logs[l]| ensures EntryHolds(w[l], climbers, g.logs[l], k) {
      assert EntryHolds(w[l], g.climbers, g.logs[l], k);
    }
  }

  lemma {:induction false} NeverNamed(b: Bucket, climbers: seq<Climber>, log: seq<Taken>)
    requires WaitsFor(b, climbers, log)
    ensures Times(log, |climbers|) == 0
  {
    if log != [] {
      var front := log[..|log| - 1];
      forall k | 0 <= k < |front| ensures EntryHolds(b, climbers, front, k) {
        assert EntryHolds(b, climbers, log, k);
        assert front[..k + 1] == log[..k + 1];
      }
      NeverNamed(b, climbers, front);
      assert EntryHolds(b, climbers, log, |log| - 1);
    }
  }

  /** Going up one limiter is being accounted for there and nowhere else. */
  lemma PassedAfter(parents: Parents, c: Climber, l: nat)
    requires Planted(parents) && OnTheWay(parents, c) && c.next.Some? && l < |parents|
    ensures var c' := c.(next := parents[c.next.value]);
      && OnTheWay(parents, c')
      && (Passed(parents, c', l) <==> Passed(parents, c, l) || l == c.next.value)
      && (l == c.next.value ==> !Passed(parents, c, l))
  {
    var at := c.next.value;
    if parents[at].Some? {
      UnderParent(parents, c.who, at);
      UnderIsBelow(parents, parents[at].value, at);
    }
  }

  lemma {:induction false} MovedWith(parents: Parents, climbers: seq<Climber>, i: nat, c: Climber, l: nat)
    requires Planted(parents) && forall j :: 0 <= j < |climbers| ==> OnTheWay(parents, climbers[j])
    requires i < |climbers| && OnTheWay(parents, c) && c.call == climbers[i].call
    requires Passed(parents, climbers[i], l) ==> Passed(parents, c, l)
    ensures Moved(parents, climbers[i := c], l)
         == Moved(parents, climbers, l)
            + if Passed(parents, c, l) && !Passed(parents, climbers[i], l) then c.call.n else 0
    decreases |climbers|
  {
    var n := |climbers| - 1;
    if i == n {
      assert climbers[i := c][..n] == climbers[..n];
    } else {
      MovedWith(parents, climbers[..n], i, c, l);
      assert climbers[i := c][..n] == climbers[..n][i := c];
    }
  }

  /** A limiter that a reservation does not take. */
  lemma ElsewhereSound(parents: Parents, w: seq<Bucket>, g: World, i: nat, l: nat)
    requires Shaped(parents, g) && |w| == |parents| && l < |w| && SoundAt(parents, w, g, l)
    requires i < |g.climbers| && g.climbers[i].next.Some? && g.climbers[i].next.value != l
    ensures Shaped(parents, Raised(parents, g, i)) && SoundAt(parents, w, Raised(parents, g, i), l)
  {
    var c, g' := g.climbers[i], Raised(parents, g, i);
    StepShaped(parents, g, Up(i));
    PassedAfter(parents, c, l);
    MovedWith(parents, g.climbers, i, g'.climbers[i], l);
    forall k | 0 <= k < |g.logs[l]| ensures EntryHolds(w[l], g'.climbers, g'.logs[l], k) {
      assert EntryHolds(w[l], g.climbers, g.logs[l], k);
    }
  }

  lemma HereWaits(parents: Parents, w: seq<Bucket>, g: World, i: nat, l: nat)
    requires Shaped(parents, g) && |w| == |parents| && l < |w| && SoundAt(parents, w, g, l)
    requires i < |g.climbers| && g.climbers[i].next == Some(l)
    ensures var g' := Raised(parents, g, i);
      g'.w[l] == Run(w[l], CallsOf(g'.logs[l])) && WaitsFor(w[l], g'.climbers, g'.logs[l])
  {
    var c, g', log := g.climbers[i], Raised(parents, g, i), g.logs[l];
    var t := Taken(i, c.call);
    CallsSnoc(log, t);
    RunSnoc(w[l], CallsOf(log), c.call);
    forall k | 0 <= k < |g'.logs[l]| ensures EntryHolds(w[l], g'.climbers, g'.logs[l], k) {
      if k < |log| {
        assert EntryHolds(w[l], g.climbers, log, k);
        assert g'.logs[l][..k + 1] == log[..k + 1];
      } else {
        assert g'.logs[l][..k + 1] == g'.logs[l];
      }
    }
  }

  lemma HereOnce(parents: Parents, w: seq<Bucket>, g: World, i: nat, l: nat)
    requires Shaped(parents, g) && |w| == |parents| && l < |w| && SoundAt(parents, w, g, l)
    requires i < |g.climbers| && g.climbers[i].next == Some(l)
    ensures var g' := Raised(parents, g, i); Shaped(parents, g') && OnceEach(parents, g'.climbers, g'.logs[l], l)
  {
    var c, g', log := g.climbers[i], Raised(parents, g, i), g.logs[l];
    var t := Taken(i, c.call);
    StepShaped(parents, g, Up(i));
    PassedAfter(parents, c, l);
    MovedWith(parents, g.climbers, i, g'.climbers[i], l);
    CallsSnoc(log, t);
    forall j | 0 <= j < |g'.climbers|
      ensures Times(g'.logs[l], j) == if Passed(parents, g'.climbers[j], l) then 1 else 0
    {
      TimesSnoc(log, t, j);
    }
  }

  lemma StepSound(parents: Parents, w: seq<Bucket>, g: World, m: Move, l: nat)
    requires Shaped(parents, g) && |w| == |parents| && l < |w| && SoundAt(parents, w, g, l)
    ensures Shaped(parents, Step(parents, g, m)) && SoundAt(parents, w, Step(parents, g, m), l)
  {
    StepShaped(parents, g, m);
    match m
    case Enter(who, call) => if who < |parents| { EnterSound(parents, w, g, who, call, l); }
    case Up(i) =>
      if i < |g.climbers| && g.climbers[i].next.Some? {
        if g.climbers[i].next.value == l {
          HereWaits(parents, w, g, i, l);
          HereOnce(parents, w, g, i, l);
        } else {
          ElsewhereSound(parents, w, g, i, l);
        }
      }
  }

  lemma {:induction false} RunSound(parents: Parents, w: seq<Bucket>, g: World, moves: seq<Move>, l: nat)
    requires Shaped(parents, g) && |w| == |parents| && l < |w| && SoundAt(parents, w, g, l)
    ensures Shaped(parents, RunMoves(parents, g, moves)) && SoundAt(parents, w, RunMoves(parents, g, moves), l)
    decreases |moves|
  {
    if moves != [] {
      StepSound(parents, w, g, moves[0], l);
      RunSound(parents, w, Step(parents, g, moves[0]), moves[1..], l);
    }
  }

  lemma ReachableIsSound(parents: Parents, w: seq<Bucket>, g: World, l: nat)
    requires Reachable(parents, w, g) && l < |w|
    ensures Shaped(parents, g) && SoundAt(parents, w, g, l)
  {
    var moves :| g == RunMoves(parents, Start(w), moves);
    StartSound(parents, w, l);
    RunSound(parents, w, Start(w), moves, l);
  }

  // ---- the results -----------------------------------------------------------------

  /** `total` is at most a burst and what the rate earns from the clock of `start` to that of `end` and the wait. */
  predicate WithinWait(total: nat, start: Bucket, end: Bucket, wait: real) {
    total as real <= start.burst + (end.last + wait - start.last) * start.rate
  }

  lemma MoreTime(total: nat, start: Bucket, end: Bucket, wait: real)
    requires Allowed(total, start, end) && Owed(end) <= wait
    ensures WithinWait(total, start, end, wait)
  {
    LongerIsMore(end.last + Owed(end) - start.last, end.last + wait - start.last, start.rate);
  }

  lemma LongerIsMore(a: real, b: real, r: Rate)
    requires a <= b
    ensures a * r <= b * r
  {
  }

  lemma CallsUpTo(log: seq<Taken>, from: nat, to: nat)
    requires from <= to <= |log|
    ensures CallsOf(log[..to]) == CallsOf(log[..from]) + CallsOf(log[from..to])
  {
  }

  lemma LogBound(b: Bucket, climbers: seq<Climber>, log: seq<Taken>, from: nat, last: nat)
    requires WaitsFor(b, climbers, log) && b.tokens <= b.burst && from <= last < |log|
    ensures log[last].climber < |climbers|
    ensures WithinWait(Total(CallsOf(log[from..last + 1])), Run(b, CallsOf(log[..from])),
                       Run(b, CallsOf(log[..last + 1])), climbers[log[last].climber].wait)
  {
    assert EntryHolds(b, climbers, log, last);
    CallsUpTo(log, from, last + 1);
    WindowBound(b, CallsOf(log[..from]), CallsOf(log[from..last + 1]));
    MoreTime(Total(CallsOf(log[from..last + 1])), Run(b, CallsOf(log[..from])), Run(b, CallsOf(log[..last + 1])),
             climbers[log[last].climber].wait);
  }

  /** However reservations interleave between the levels, and at every limiter: those accounted for in a row move at
      most a burst and what the rate earns from the clock before them to the end of the wait the last of them is
      given. */
  lemma SharedBound(parents: Parents, w: seq<Bucket>, g: World, l: nat, from: nat, last: nat)
    requires Reachable(parents, w, g) && l < |w| && w[l].tokens <= w[l].burst
    requires l < |g.logs| && from <= last < |g.logs[l]|
    ensures var log := g.logs[l];
      && log[last].climber < |g.climbers|
      && WithinWait(Total(CallsOf(log[from..last + 1])), Run(w[l], CallsOf(log[..from])),
                    Run(w[l], CallsOf(log[..last + 1])), g.climbers[log[last].climber].wait)
  {
    ReachableIsSound(parents, w, g, l);
    LogBound(w[l], g.climbers, g.logs[l], from, last);
  }

  /** A reservation that is done has been accounted for exactly once at every limiter it moves through and nowhere
      else; and once all are done, what was accounted for at a limiter is what moves through it. */
  lemma DoneIsAccounted(parents: Parents, w: seq<Bucket>, g: World, l: nat)
    requires Reachable(parents, w, g) && l < |w|
    ensures Shaped(parents, g)
    ensures forall i :: 0 <= i < |g.climbers| && g.climbers[i].next.None? ==>
      Times(g.logs[l], i) == if Under(parents, g.climbers[i].who, l) then 1 else 0
    ensures g.w[l] == Run(w[l], CallsOf(g.logs[l]))
    ensures (forall i :: 0 <= i < |g.climbers| ==> g.climbers[i].next.None?) ==>
      Total(CallsOf(g.logs[l])) == Total(Through(parents, AsksOf(g.climbers), l))
  {
    ReachableIsSound(parents, w, g, l);
    if forall i :: 0 <= i < |g.climbers| ==> g.climbers[i].next.None? {
      MovedIsThrough(parents, g.climbers, l);
    }
  }

  function AsksOf(climbers: seq<Climber>): (asks: seq<Ask>)
    ensures |asks| == |climbers|
    ensures forall i :: 0 <= i < |climbers| ==> asks[i] == Ask(climbers[i].who, climbers[i].call)
  {
    seq(|climbers|, i requires 0 <= i < |climbers| => Ask(climbers[i].who, climbers[i].call))
  }

  lemma {:induction false} MovedIsThrough(parents: Parents, climbers: seq<Climber>, l: nat)
    requires Planted(parents) && forall i :: 0 <= i < |climbers| ==> OnTheWay(parents, climbers[i])
    requires forall i :: 0 <= i < |climbers| ==> climbers[i].next.None?
    ensures Known(parents, AsksOf(climbers))
    ensures Moved(parents, climbers, l) == Total(Through(parents, AsksOf(climbers), l))
  {
    if climbers != [] {
      var front := climbers[..|climbers| - 1];
      MovedIsThrough(parents, front, l);
      assert AsksOf(climbers)[..|front|] == AsksOf(front);
      var calls := Through(parents, AsksOf(front), l);
      assert forall c: Call :: (calls + [c])[..|calls|] == calls;
    }
  }

  // ---- a reservation by itself -----------------------------------------------------

  /** A reservation goes all the way up with none in between. */
  function Finished(parents: Parents, g: World, i: nat): World
    requires Shaped(parents, g) && i < |g.climbers|
    decreases if g.climbers[i].next.Some? then g.climbers[i].next.value + 1 else 0
  {
    if g.climbers[i].next.None? then g
    else
      StepShaped(parents, g, Up(i));
      Finished(parents, Step(parents, g, Up(i)), i)
  }

  /** Then the limiters are as one climb leaves them, and the wait is the longest on the way. */
  lemma {:induction false} AloneIsOneClimb(parents: Parents, g: World, i: nat, l: nat)
    requires Shaped(parents, g) && i < |g.climbers| && g.climbers[i].next == Some(l) && g.climbers[i].wait >= 0.0
    ensures var w := TakeUp(parents, g.w, l, g.climbers[i].call);
      && Finished(parents, g, i).w == w && i < |Finished(parents, g, i).climbers|
      && Finished(parents, g, i).climbers[i].wait == MaxReal(g.climbers[i].wait, WaitUp(parents, w, l))
    decreases l
  {
    var g', c := Step(parents, g, Up(i)), g.climbers[i].call;
    StepShaped(parents, g, Up(i));
    if parents[l].Some? {
      AloneIsOneClimb(parents, g', i, parents[l].value);
      TakeUpAt(parents, g'.w, parents[l].value, c, l);
      UnderIsBelow(parents, parents[l].value, l);
    }
  }
}
