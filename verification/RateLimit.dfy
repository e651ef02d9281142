/** The shared token bucket of src/ratelimit.rs, over real seconds and real tokens: what any run of reservations may
    move, for a limiter and for every limiter above it. */
module RateLimit {
  import opened Numbers

  // ---- one bucket ------------------------------------------------------------------

  type Rate = r: real | r > 0.0 witness 1.0

  datatype Bucket = Bucket(rate: Rate, burst: real, tokens: real, last: real)

  datatype Call = Call(n: nat, now: real)

  function MaxReal(a: real, b: real): real {
    if a < b then b else a
  }

  function MinReal(a: real, b: real): real {
    if a < b then a else b
  }

  /** A bucket that has just been made. */
  function Full(bytesPerSec: nat, now: real): Bucket {
    Bucket(Max(bytesPerSec, 1) as real, Max(bytesPerSec, 1) as real, Max(bytesPerSec, 1) as real, now)
  }

  /** The bucket after `n` bytes are accounted for at `now`. */
  function Take(b: Bucket, c: Call): Bucket {
    b.(
      last := MaxReal(b.last, c.now),
      tokens := MinReal(b.tokens + MaxReal(c.now - b.last, 0.0) * b.rate, b.burst) - c.n as real
    )
  }

  /** The wait the bucket's debt asks for. */
  function Owed(b: Bucket): real {
    if b.tokens >= 0.0 then 0.0 else -b.tokens / b.rate
  }

  function Run(b: Bucket, calls: seq<Call>): (r: Bucket)
    ensures r.rate == b.rate && r.burst == b.burst && b.last <= r.last
    ensures b.tokens <= b.burst ==> r.tokens <= b.burst
  {
    if calls == [] then b else Take(Run(b, calls[..|calls| - 1]), calls[|calls| - 1])
  }

  function Total(calls: seq<Call>): nat {
    if calls == [] then 0 else Total(calls[..|calls| - 1]) + calls[|calls| - 1].n
  }

  lemma {:induction false} RunAppend(b: Bucket, x: seq<Call>, y: seq<Call>)
    ensures Run(b, x + y) == Run(Run(b, x), y)
    decreases |y|
  {
    if y == [] {
      assert x + y == x;
    } else {
      var front := y[..|y| - 1];
      RunAppend(b, x, front);
      assert (x + y)[..|x + y| - 1] == x + front;
    }
  }

  lemma ProductOf(a: real, b: real, r: real)
    ensures (a - b) * r == a * r - b * r
  {
  }

  /** Tokens less what the clock has earned only ever go down, by at least what is taken. */
  function Level(b: Bucket): real {
    b.tokens - b.last * b.rate
  }

  lemma LevelFalls(b: Bucket, c: Call)
    ensures Level(Take(b, c)) + c.n as real <= Level(b)
    ensures c.now <= b.last ==> Take(b, c).tokens <= b.tokens - c.n as real
  {
    ProductOf(c.now, b.last, b.rate);
  }

  lemma {:induction false} LevelOverRun(b: Bucket, calls: seq<Call>)
    ensures Level(Run(b, calls)) + Total(calls) as real <= Level(b)
  {
    if calls != [] {
      LevelOverRun(b, calls[..|calls| - 1]);
      LevelFalls(Run(b, calls[..|calls| - 1]), calls[|calls| - 1]);
    }
  }

  lemma OwedTimesRate(b: Bucket)
    ensures Owed(b) >= 0.0 && -b.tokens <= Owed(b) * b.rate
    ensures b.tokens < 0.0 ==> -b.tokens == Owed(b) * b.rate
  {
    if b.tokens < 0.0 {
      var t, r := -b.tokens, b.rate;
      assert t / r * r == t;
      assert t / r >= 0.0;
    }
  }

  /** `total` is at most a burst and what the rate earns from the clock of `start` to the end of the wait owed in
      `end`. */
  predicate Allowed(total: nat, start: Bucket, end: Bucket) {
    total as real <= start.burst + (end.last + Owed(end) - start.last) * start.rate
  }

  lemma LevelsAllow(total: nat, start: Bucket, end: Bucket)
    requires start.rate == end.rate && start.tokens <= start.burst && Level(end) + total as real <= Level(start)
    ensures Allowed(total, start, end)
  {
    OwedTimesRate(end);
    Distribute(end.last, Owed(end), start.last, start.rate);
  }

  /** Any window of consecutive calls moves at most a burst and what the rate earns from the clock just before the
      window to the end of the last call's own wait. */
  lemma WindowBound(b: Bucket, before: seq<Call>, window: seq<Call>)
    requires b.tokens <= b.burst
    ensures Allowed(Total(window), Run(b, before), Run(b, before + window))
  {
    RunAppend(b, before, window);
    LevelOverRun(Run(b, before), window);
    LevelsAllow(Total(window), Run(b, before), Run(b, before + window));
  }

  /** `total` is at most what the rate comes to in a second more than `elapsed`. */
  predicate SecondAhead(total: nat, elapsed: real, rate: Rate) {
    total as real <= (1.0 + elapsed) * rate
  }

  lemma BurstOfASecond(total: nat, start: Bucket, end: Bucket)
    requires Allowed(total, start, end) && start.burst == start.rate
    ensures SecondAhead(total, end.last + Owed(end) - start.last, start.rate)
  {
    OneMoreSecond(end.last + Owed(end) - start.last, start.rate);
  }

  lemma OneMoreSecond(t: real, r: real)
    ensures r + t * r == (1.0 + t) * r
  {
  }

  /** So a new limiter of so many bytes a second, at least one, moves at most a second's worth at once and that rate
      from then on. */
  lemma NewBound(bytesPerSec: nat, now: real, calls: seq<Call>)
    ensures var end := Run(Full(bytesPerSec, now), calls);
      SecondAhead(Total(calls), end.last + Owed(end) - now, Max(bytesPerSec, 1) as real)
  {
    var full := Full(bytesPerSec, now);
    WindowBound(full, [], calls);
    assert [] + calls == calls && Run(full, []) == full;
    BurstOfASecond(Total(calls), full, Run(full, calls));
  }

  /** And a new limiter lets a second's worth go at once. */
  lemma NewIsFull(bytesPerSec: nat, now: real, n: nat)
    ensures Owed(Take(Full(bytesPerSec, now), Call(n, now))) == 0.0 <==> n <= Max(bytesPerSec, 1)
  {
    var b := Take(Full(bytesPerSec, now), Call(n, now));
    OwedTimesRate(b);
    if b.tokens < 0.0 {
      assert Owed(b) * b.rate > 0.0;
    }
  }

  lemma Distribute(a: real, b: real, c: real, r: real)
    ensures (a + b - c) * r == a * r + b * r - c * r
  {
  }

  /** A clock that reads earlier than it did counts as one that stands still: it earns nothing. */
  lemma BackwardsClock(b: Bucket, c: Call)
    ensures Take(b, c) == Take(b, c.(now := MaxReal(b.last, c.now)))
    ensures c.now <= b.last && b.tokens <= b.burst ==> Take(b, c) == b.(tokens := b.tokens - c.n as real)
  {
  }

  // ---- the wait is the least that keeps to the rate --------------------------------

  /** What is left of a burst and of what the rate earns from the clock of `at` to `wait` after the clock of `end`. */
  function Spare(at: Bucket, end: Bucket, total: nat, wait: real): real {
    at.burst + (end.last + wait - at.last) * at.rate - total as real
  }

  lemma SpareGrows(at: Bucket, before: Bucket, c: Call, total: nat)
    requires at.rate == before.rate && at.burst == before.burst
    ensures var end := Take(before, c);
      Spare(at, end, total + c.n, 0.0) - Spare(at, before, total, 0.0)
      == (end.last - before.last) * before.rate - c.n as real
  {
    var end := Take(before, c);
    Distribute(end.last, 0.0, at.last, at.rate);
    Distribute(before.last, 0.0, at.last, at.rate);
    ProductOf(end.last, before.last, at.rate);
  }

  lemma TakeIsMin(before: Bucket, c: Call)
    ensures var end := Take(before, c);
      end.tokens == MinReal(before.tokens + (end.last - before.last) * before.rate, before.burst) - c.n as real
  {
  }

  /** What a window leaves bounds the tokens there are. */
  predicate Bounds(at: Bucket, end: Bucket, total: nat) {
    end.tokens <= Spare(at, end, total, 0.0)
  }

  predicate Meets(at: Bucket, end: Bucket, total: nat) {
    end.tokens == Spare(at, end, total, 0.0)
  }

  /** One more call: a window that bounds the tokens goes on bounding them, and one that meets them still does, unless
      the burst cuts in. */
  lemma Tighter(at: Bucket, before: Bucket, c: Call, total: nat)
    requires at.rate == before.rate && at.burst == before.burst && Bounds(at, before, total)
    ensures var end := Take(before, c);
      && Bounds(at, end, total + c.n) && Bounds(end, end, c.n)
      && (Meets(at, before, total) ==> Meets(at, end, total + c.n) || Meets(end, end, c.n))
  {
    SpareGrows(at, before, c, total);
    TakeIsMin(before, c);
    SpareNow(Take(before, c), c.n);
  }

  lemma SpareNow(b: Bucket, n: nat)
    ensures Spare(b, b, n, 0.0) == b.burst - n as real
  {
  }

  lemma FirstIsTight(b: Bucket, c: Call)
    requires b.tokens == b.burst
    ensures var end := Take(b, c); Bounds(end, end, c.n) && Meets(end, end, c.n)
  {
    var gained := MaxReal(c.now - b.last, 0.0);
    assert gained * b.rate >= 0.0;
    SpareNow(Take(b, c), c.n);
  }

  /** What the window from call `i` on leaves, moved `wait` after the last call. */
  function Left(b: Bucket, calls: seq<Call>, i: nat, wait: real): real
    requires i < |calls|
  {
    Spare(Run(b, calls[..i + 1]), Run(b, calls), Total(calls[i..]), wait)
  }

  predicate BoundsFrom(b: Bucket, calls: seq<Call>, i: nat)
    requires i < |calls|
  {
    Bounds(Run(b, calls[..i + 1]), Run(b, calls), Total(calls[i..]))
  }

  predicate MeetsFrom(b: Bucket, calls: seq<Call>, i: nat)
    requires i < |calls|
  {
    Meets(Run(b, calls[..i + 1]), Run(b, calls), Total(calls[i..]))
  }

  lemma FromEarlier(calls: seq<Call>, i: nat)
    requires i < |calls| - 1
    ensures var front, c := calls[..|calls| - 1], calls[|calls| - 1];
      calls[..i + 1] == front[..i + 1] && Total(calls[i..]) == Total(front[i..]) + c.n
  {
    assert calls[i..][..|calls| - i - 1] == calls[..|calls| - 1][i..];
  }

  lemma FromLast(calls: seq<Call>)
    requires calls != []
    ensures calls[..|calls|] == calls && Total(calls[|calls| - 1..]) == calls[|calls| - 1].n
  {
    assert calls[|calls| - 1..] == [calls[|calls| - 1]];
  }

  lemma OneMore(b: Bucket, calls: seq<Call>, i: nat)
    requires i < |calls| - 1 && BoundsFrom(b, calls[..|calls| - 1], i)
    ensures BoundsFrom(b, calls, i) && BoundsFrom(b, calls, |calls| - 1)
    ensures MeetsFrom(b, calls[..|calls| - 1], i) ==> MeetsFrom(b, calls, i) || MeetsFrom(b, calls, |calls| - 1)
  {
    var front, c := calls[..|calls| - 1], calls[|calls| - 1];
    FromEarlier(calls, i);
    FromLast(calls);
    Tighter(Run(b, front[..i + 1]), Run(b, front), c, Total(front[i..]));
  }

  /** The tokens of a bucket that began full are what its tightest window leaves. */
  lemma {:induction false} TokensAreTightest(b: Bucket, calls: seq<Call>) returns (tight: nat)
    requires b.tokens == b.burst && calls != []
    ensures tight < |calls| && MeetsFrom(b, calls, tight)
    ensures forall i: nat :: i < |calls| ==> BoundsFrom(b, calls, i)
    decreases |calls|
  {
    var k := |calls| - 1;
    tight := k;
    if k == 0 {
      FromLast(calls);
      FirstIsTight(b, calls[0]);
    } else {
      var t := TokensAreTightest(b, calls[..k]);
      forall i: nat | i < k
        ensures BoundsFrom(b, calls, i)
      {
        OneMore(b, calls, i);
      }
      OneMore(b, calls, t);
      if MeetsFrom(b, calls, t) {
        tight := t;
      }
    }
  }

  /** Every window that ends with the last call keeps to a burst and the rate, if that call waits so long. */
  ghost predicate LongEnough(b: Bucket, calls: seq<Call>, wait: real) {
    forall i: nat :: i < |calls| ==> Left(b, calls, i, wait) >= 0.0
  }

  /** A wait is long enough exactly when it is at least the wait given: no limiter that kept to the rate could ask for
      less. */
  lemma WaitIsLeast(b: Bucket, calls: seq<Call>, wait: real)
    requires b.tokens == b.burst && calls != [] && wait >= 0.0
    ensures LongEnough(b, calls, wait) <==> Owed(Run(b, calls)) <= wait
  {
    var tight := TokensAreTightest(b, calls);
    var owed := Owed(Run(b, calls));
    if owed <= wait {
      forall i: nat | i < |calls|
        ensures Left(b, calls, i, wait) >= 0.0
      {
        assert BoundsFrom(b, calls, i);
        WaitGives(Run(b, calls[..i + 1]), Run(b, calls), Total(calls[i..]), wait);
      }
    } else {
      assert BoundsFrom(b, calls, tight);
      WaitGives(Run(b, calls[..tight + 1]), Run(b, calls), Total(calls[tight..]), wait);
      assert Left(b, calls, tight, wait) < 0.0;
    }
  }

  lemma WaitGives(at: Bucket, end: Bucket, total: nat, wait: real)
    requires at.rate == end.rate && Bounds(at, end, total) && wait >= 0.0
    ensures Owed(end) <= wait ==> Spare(at, end, total, wait) >= 0.0
    ensures Meets(at, end, total) && Owed(end) > wait ==> Spare(at, end, total, wait) < 0.0
  {
    OwedTimesRate(end);
    Distribute(end.last, wait, at.last, at.rate);
    Distribute(end.last, 0.0, at.last, at.rate);
    ByRate(Owed(end), wait, at.rate);
  }

  lemma ByRate(a: real, b: real, r: Rate)
    ensures a <= b <==> a * r <= b * r
  {
  }

  // ---- what is moved by when -------------------------------------------------------

  /** When the call that left the bucket so may go ahead, by the bucket's clock. */
  function Release(b: Bucket): real {
    b.last + Owed(b)
  }

  /** `total` is at most a burst, or the `first` call where it is larger than a burst, and what the rate earns between
      the two releases. */
  predicate Paced(total: nat, first: nat, start: Bucket, end: Bucket) {
    total as real <= MaxReal(start.burst, first as real) + (Release(end) - Release(start)) * start.rate
  }

  /** Calls go ahead in the order they were made, and what goes ahead between two of them is paced. */
  lemma ReleasedBetween(b: Bucket, before: seq<Call>, first: Call, rest: seq<Call>)
    requires b.tokens <= b.burst
    ensures var start, end := Run(b, before + [first]), Run(b, before + [first] + rest);
      Release(start) <= Release(end) && Paced(first.n + Total(rest), first.n, start, end)
  {
    RunAppend(b, before + [first], rest);
    LevelOverRun(Run(b, before + [first]), rest);
    assert (before + [first])[..|before|] == before;
    AfterFirst(Run(b, before), first);
    Pace(Run(b, before + [first]), Run(b, before + [first] + rest), first.n, Total(rest));
  }

  lemma AfterFirst(b: Bucket, c: Call)
    ensures Take(b, c).tokens <= b.burst - c.n as real
  {
  }

  lemma Pace(start: Bucket, end: Bucket, first: nat, rest: nat)
    requires start.rate == end.rate && start.last <= end.last
    requires start.tokens <= start.burst - first as real && Level(end) + rest as real <= Level(start)
    ensures Release(start) <= Release(end) && Paced(first + rest, first, start, end)
  {
    OwedIs(start);
    OwedIs(end);
    PaceNumbers(start.last, start.tokens, Owed(start), end.last, end.tokens, Owed(end), start.rate, start.burst,
                first as real, rest as real);
  }

  lemma OwedIs(b: Bucket)
    ensures Owed(b) * b.rate == MaxReal(0.0, -b.tokens)
  {
    OwedTimesRate(b);
  }

  /** The same on plain numbers: a release is by the clock or, where there is debt, by the level. */
  lemma PaceNumbers(last: real, tokens: real, owed: real, last': real, tokens': real, owed': real, r: Rate,
                    burst: real, first: real, rest: real)
    requires owed * r == MaxReal(0.0, -tokens) && owed' * r == MaxReal(0.0, -tokens') && last <= last'
    requires rest >= 0.0 && tokens' - last' * r + rest <= tokens - last * r && tokens <= burst - first
    ensures last + owed <= last' + owed'
    ensures first + rest <= MaxReal(burst, first) + ((last' + owed') - (last + owed)) * r
  {
    PaceEarned(last, tokens, last', tokens', r, burst, first, rest);
    PaceReleased(last, owed, last', owed', r, MaxReal(0.0, -tokens), MaxReal(0.0, -tokens'), first + rest,
                 MaxReal(burst, first));
  }

  lemma PaceEarned(last: real, tokens: real, last': real, tokens': real, r: Rate, burst: real, first: real, rest: real)
    requires last <= last' && rest >= 0.0 && tokens' - last' * r + rest <= tokens - last * r && tokens <= burst - first
    ensures last * r + MaxReal(0.0, -tokens) <= last' * r + MaxReal(0.0, -tokens')
    ensures first + rest
         <= MaxReal(burst, first) + (last' * r + MaxReal(0.0, -tokens')) - (last * r + MaxReal(0.0, -tokens))
  {
    ByRate(last, last', r);
    PaceProducts(last * r, tokens, last' * r, tokens', burst, first, rest);
  }

  lemma PaceReleased(last: real, owed: real, last': real, owed': real, r: Rate, debt: real, debt': real, moved: real,
                     most: real)
    requires owed * r == debt && owed' * r == debt' && last * r + debt <= last' * r + debt'
    requires moved <= most + (last' * r + debt') - (last * r + debt)
    ensures last + owed <= last' + owed'
    ensures moved <= most + ((last' + owed') - (last + owed)) * r
  {
    var into, out := last + owed, last' + owed';
    assert into * r == last * r + debt && out * r == last' * r + debt';
    ByRate(into, out, r);
    ProductOf(out, into, r);
  }

  lemma PaceProducts(a: real, tokens: real, a': real, tokens': real, burst: real, first: real, rest: real)
    requires a <= a' && rest >= 0.0 && tokens' - a' + rest <= tokens - a && tokens <= burst - first
    ensures a + MaxReal(0.0, -tokens) <= a' + MaxReal(0.0, -tokens')
    ensures first + rest
         <= MaxReal(burst, first) + (a' + MaxReal(0.0, -tokens')) - (a + MaxReal(0.0, -tokens))
  {
  }

  // ---- limiters under limiters -----------------------------------------------------

  /** For each limiter the one it answers to. A limiter is made after the one it answers to. */
  type Parents = seq<Option<nat>>

  predicate Planted(parents: Parents) {
    forall i :: 0 <= i < |parents| && parents[i].Some? ==> parents[i].value < i
  }

  /** What moves through `who` moves through `limiter`. */
  predicate Under(parents: Parents, who: nat, limiter: nat)
    requires Planted(parents) && who < |parents|
    decreases who
  {
    who == limiter || (parents[who].Some? && Under(parents, parents[who].value, limiter))
  }

  /** A reservation at `who`: it is accounted for there and all the way up. */
  function TakeUp(parents: Parents, w: seq<Bucket>, who: nat, c: Call): (r: seq<Bucket>)
    requires Planted(parents) && who < |parents| == |w|
    ensures |r| == |w|
    decreases who
  {
    var own := w[who := Take(w[who], c)];
    if parents[who].None? then own else TakeUp(parents, own, parents[who].value, c)
  }

  /** The longest wait from `who` up. */
  function WaitUp(parents: Parents, w: seq<Bucket>, who: nat): real
    requires Planted(parents) && who < |parents| == |w|
    decreases who
  {
    if parents[who].None? then Owed(w[who])
    else MaxReal(Owed(w[who]), WaitUp(parents, w, parents[who].value))
  }

  /** A reservation touches exactly the limiters above it, each once. */
  lemma {:induction false} TakeUpAt(parents: Parents, w: seq<Bucket>, who: nat, c: Call, l: nat)
    requires Planted(parents) && who < |parents| == |w| && l < |w|
    ensures TakeUp(parents, w, who, c)[l] == if Under(parents, who, l) then Take(w[l], c) else w[l]
    decreases who
  {
    if parents[who].Some? {
      TakeUpAt(parents, w[who := Take(w[who], c)], parents[who].value, c, l);
      UnderIsBelow(parents, parents[who].value, l);
    }
  }

  lemma {:induction false} UnderIsBelow(parents: Parents, who: nat, l: nat)
    requires Planted(parents) && who < |parents|
    ensures Under(parents, who, l) ==> l <= who
    decreases who
  {
    if who != l && parents[who].Some? {
      UnderIsBelow(parents, parents[who].value, l);
    }
  }

  lemma {:induction false} WaitCovers(parents: Parents, w: seq<Bucket>, who: nat, l: nat)
    requires Planted(parents) && who < |parents| == |w| && l < |w| && Under(parents, who, l)
    ensures Owed(w[l]) <= WaitUp(parents, w, who)
    decreases who
  {
    if who != l {
      WaitCovers(parents, w, parents[who].value, l);
    }
  }

  datatype Ask = Ask(who: nat, call: Call)

  predicate Known(parents: Parents, asks: seq<Ask>) {
    forall i :: 0 <= i < |asks| ==> asks[i].who < |parents|
  }

  function RunUp(parents: Parents, w: seq<Bucket>, asks: seq<Ask>): (r: seq<Bucket>)
    requires Planted(parents) && |parents| == |w| && Known(parents, asks)
    ensures |r| == |w|
  {
    if asks == [] then w
    else
      var ask := asks[|asks| - 1];
      TakeUp(parents, RunUp(parents, w, asks[..|asks| - 1]), ask.who, ask.call)
  }

  /** The calls that move through `l`: its own and those of every limiter under it. */
  function Through(parents: Parents, asks: seq<Ask>, l: nat): seq<Call>
    requires Planted(parents) && Known(parents, asks)
  {
    if asks == [] then []
    else
      var ask, front := asks[|asks| - 1], Through(parents, asks[..|asks| - 1], l);
      if Under(parents, ask.who, l) then front + [ask.call] else front
  }

  lemma {:induction false} ThroughAppend(parents: Parents, x: seq<Ask>, y: seq<Ask>, l: nat)
    requires Planted(parents) && Known(parents, x) && Known(parents, y)
    ensures Known(parents, x + y) && Through(parents, x + y, l) == Through(parents, x, l) + Through(parents, y, l)
    decreases |y|
  {
    if y == [] {
      assert x + y == x;
    } else {
      ThroughAppend(parents, x, y[..|y| - 1], l);
      assert (x + y)[..|x + y| - 1] == x + y[..|y| - 1];
    }
  }

  /** In any run over any limiters, a limiter's bucket is that of the calls that move through it, siblings' calls and
      all. */
  lemma {:induction false} EachSeesItsCalls(parents: Parents, w: seq<Bucket>, asks: seq<Ask>, l: nat)
    requires Planted(parents) && |parents| == |w| && Known(parents, asks) && l < |w|
    ensures RunUp(parents, w, asks)[l] == Run(w[l], Through(parents, asks, l))
  {
    if asks != [] {
      var front, ask := asks[..|asks| - 1], asks[|asks| - 1];
      EachSeesItsCalls(parents, w, front, l);
      TakeUpAt(parents, RunUp(parents, w, front), ask.who, ask.call, l);
      var calls := Through(parents, front, l);
      assert (calls + [ask.call])[..|calls|] == calls;
    }
  }

  /** The bound holds at every limiter of the tree, counting everything that moves through it; and where the last call
      of the window moved through it, the wait that call was given is long enough. */
  lemma FamilyBound(parents: Parents, w: seq<Bucket>, before: seq<Ask>, window: seq<Ask>, l: nat)
    requires Planted(parents) && |parents| == |w| && Known(parents, before) && Known(parents, window) && l < |w|
    requires w[l].tokens <= w[l].burst
    ensures Known(parents, before + window)
    ensures Allowed(Total(Through(parents, window, l)), RunUp(parents, w, before)[l],
                    RunUp(parents, w, before + window)[l])
    ensures window != [] && Under(parents, window[|window| - 1].who, l) ==>
      Owed(RunUp(parents, w, before + window)[l])
      <= WaitUp(parents, RunUp(parents, w, before + window), window[|window| - 1].who)
  {
    ThroughAppend(parents, before, window, l);
    EachSeesItsCalls(parents, w, before, l);
    EachSeesItsCalls(parents, w, before + window, l);
    WindowBound(w[l], Through(parents, before, l), Through(parents, window, l));
    if window != [] && Under(parents, window[|window| - 1].who, l) {
      WaitCovers(parents, RunUp(parents, w, before + window), window[|window| - 1].who, l);
    }
  }

  // ---- the limiter -----------------------------------------------------------------

  class RateLimiter {
    const rate: Rate
    const burst: real
    const parent: RateLimiter?
    var tokens: real
    var last: real

    ghost function State(): Bucket
      reads this
    {
      Bucket(rate, burst, tokens, last)
    }

    constructor New(bytesPerSec: nat, now: real)
      ensures State() == Full(bytesPerSec, now) && parent == null
    {
      rate := Max(bytesPerSec, 1) as real;
      burst := Max(bytesPerSec, 1) as real;
      tokens := Max(bytesPerSec, 1) as real;
      last := now;
      parent := null;
    }

    constructor Beneath(bytesPerSec: nat, parent: RateLimiter, now: real)
      ensures State() == Full(bytesPerSec, now) && this.parent == parent
    {
      rate := Max(bytesPerSec, 1) as real;
      burst := Max(bytesPerSec, 1) as real;
      tokens := Max(bytesPerSec, 1) as real;
      last := now;
      this.parent := parent;
    }

    /** What is done under the lock: `n` bytes at `now` are accounted for here. */
    method Account(n: nat, now: real) returns (own: real)
      modifies this
      ensures State() == old(Take(State(), Call(n, now))) && own == Owed(State())
    {
      var elapsed := MaxReal(now - last, 0.0);
      last := MaxReal(last, now);
      tokens := MinReal(tokens + elapsed * rate, burst);
      tokens := tokens - n as real;
      own := if tokens >= 0.0 then 0.0 else -tokens / rate;
    }

    /** Accounts for `n` bytes at `now` here and all the way up; the answer is the longest wait on the way. `all` are
        the client's limiters, of which this is number `who`. */
    method Reserve(n: nat, now: real, ghost all: seq<RateLimiter>, ghost parents: Parents, ghost w: seq<Bucket>,
                   ghost who: nat)
      returns (wait: real)
      requires Grown(all, parents) && Holds(all, w) && who < |all| && all[who] == this
      modifies all
      ensures Holds(all, TakeUp(parents, w, who, Call(n, now)))
      ensures wait == WaitUp(parents, TakeUp(parents, w, who, Call(n, now)), who)
      decreases who
    {
      var own := Account(n, now);
      ghost var next := w[who := Take(w[who], Call(n, now))];
      assert Holds(all, next);
      if parent == null {
        wait := own;
      } else {
        var above := parent.Reserve(n, now, all, parents, next, parents[who].value);
        TakeUpAt(parents, next, parents[who].value, Call(n, now), who);
        UnderIsBelow(parents, parents[who].value, who);
        wait := MaxReal(own, above);
      }
    }
  }

  /** The limiters `all` answer to each other as `parents` says. */
  ghost predicate Grown(all: seq<RateLimiter>, parents: Parents) {
    && Planted(parents) && |all| == |parents|
    && (forall i, j :: 0 <= i < j < |all| ==> all[i] != all[j])
    && (forall i :: 0 <= i < |all| ==> all[i].parent == if parents[i].None? then null else all[parents[i].value])
  }

  /** A limiter made under one of them, or under none, joins them. */
  lemma OneMoreLimiter(all: seq<RateLimiter>, parents: Parents, limiter: RateLimiter, parent: Option<nat>)
    requires Grown(all, parents) && limiter !in all && (parent.Some? ==> parent.value < |all|)
    requires limiter.parent == if parent.None? then null else all[parent.value]
    ensures Grown(all + [limiter], parents + [parent])
  {
    assert forall i :: 0 <= i < |all| ==> (all + [limiter])[i] == all[i] && (parents + [parent])[i] == parents[i];
  }

  /** The limiters `all` are in the states `w`. */
  ghost predicate Holds(all: seq<RateLimiter>, w: seq<Bucket>)
    reads all
  {
    |all| == |w| && forall i :: 0 <= i < |all| ==> all[i].State() == w[i]
  }
}
