/** Who to unchoke for a round (`choose`, src/choker.rs): the interested peers ranked, the best of them taken, and one
    more place for the optimistic peer. */
module Choosing {
  import opened Numbers

  type PeerId = nat

  datatype Candidate = Candidate(id: PeerId, interested: bool, uploaded: nat, downloaded: nat)

  /** Gave more, then took more, then connected earlier. */
  predicate Better(a: Candidate, b: Candidate) {
    a.downloaded > b.downloaded
    || (a.downloaded == b.downloaded && (a.uploaded > b.uploaded || (a.uploaded == b.uploaded && a.id < b.id)))
  }

  predicate AllInterested(s: seq<Candidate>) {
    forall i :: 0 <= i < |s| ==> s[i].interested
  }

  /** Best first. */
  predicate Ranked(s: seq<Candidate>) {
    forall i, j :: 0 <= i < j < |s| ==> !Better(s[j], s[i])
  }

  predicate DistinctIds(s: seq<Candidate>) {
    forall i, j :: 0 <= i < j < |s| ==> s[i].id != s[j].id
  }

  function Interested(peers: seq<Candidate>): (s: seq<Candidate>)
    ensures AllInterested(s)
    ensures forall c :: c in s <==> c in peers && c.interested
  {
    if peers == [] then []
    else if peers[0].interested then [peers[0]] + Interested(peers[1..])
    else Interested(peers[1..])
  }

  function Insert(c: Candidate, s: seq<Candidate>): (r: seq<Candidate>)
    ensures multiset(r) == multiset(s) + multiset{c}
  {
    if s == [] || !Better(s[0], c) then [c] + s
    else
      assert s == [s[0]] + s[1..];
      [s[0]] + Insert(c, s[1..])
  }

  /** `sort_by` the ranking. */
  function Sort(s: seq<Candidate>): (r: seq<Candidate>)
    ensures multiset(r) == multiset(s)
  {
    if s == [] then []
    else
      assert s == [s[0]] + s[1..];
      Insert(s[0], Sort(s[1..]))
  }

  lemma {:induction false} InsertRanked(c: Candidate, s: seq<Candidate>)
    requires Ranked(s)
    ensures Ranked(Insert(c, s))
  {
    var r := Insert(c, s);
    if s == [] || !Better(s[0], c) {
      forall i, j | 0 <= i < j < |r| ensures !Better(r[j], r[i]) {
        if i == 0 && j > 1 { assert !Better(s[j - 1], s[0]); }
      }
    } else {
      var t := Insert(c, s[1..]);
      InsertRanked(c, s[1..]);
      forall i, j | 0 <= i < j < |r| ensures !Better(r[j], r[i]) {
        assert r[j] == t[j - 1] && t[j - 1] in multiset(t);
        assert t[j - 1] == c || t[j - 1] in multiset(s[1..]);
        if i > 0 { assert r[i] == t[i - 1]; }
      }
    }
  }

  lemma {:induction false} SortRanked(s: seq<Candidate>)
    ensures Ranked(Sort(s))
  {
    if s != [] {
      SortRanked(s[1..]);
      InsertRanked(s[0], Sort(s[1..]));
    }
  }

  lemma InBoth(s: seq<Candidate>, t: seq<Candidate>)
    requires multiset(s) == multiset(t)
    ensures |s| == |t|
    ensures forall c :: c in s <==> c in t
  {
    assert |multiset(s)| == |multiset(t)|;
    forall c ensures c in s <==> c in t {
      assert c in s <==> c in multiset(s);
      assert c in t <==> c in multiset(t);
    }
  }

  lemma HeadsMeet(s: seq<Candidate>, t: seq<Candidate>)
    requires Ranked(s) && Ranked(t) && AllInterested(s) && multiset(s) == multiset(t) && s != [] && t != []
    ensures s[0] == t[0]
  {
    InBoth(s, t);
    assert s[0] in t && t[0] in s;
    var i :| 0 <= i < |t| && t[i] == s[0];
    var j :| 0 <= j < |s| && s[j] == t[0];
    assert i == 0 || !Better(t[i], t[0]);
    assert j == 0 || !Better(s[j], s[0]);
  }

  lemma TailMultiset(s: seq<Candidate>)
    requires s != []
    ensures multiset(s[1..]) == multiset(s) - multiset{s[0]}
  {
    assert s == [s[0]] + s[1..];
  }

  /** Two rankings of the same interested peers are the same list. */
  lemma {:induction false} RankingUnique(s: seq<Candidate>, t: seq<Candidate>)
    requires Ranked(s) && Ranked(t) && AllInterested(s) && multiset(s) == multiset(t)
    ensures s == t
    decreases |s|
  {
    InBoth(s, t);
    if s != [] {
      HeadsMeet(s, t);
      TailMultiset(s);
      TailMultiset(t);
      RankingUnique(s[1..], t[1..]);
      assert s == [s[0]] + s[1..] && t == [t[0]] + t[1..];
    }
  }

  function Ids(s: seq<Candidate>): set<PeerId> {
    set c | c in s :: c.id
  }

  /** The first of a list that is not chosen yet. */
  function FirstOther(s: seq<Candidate>, chosen: set<PeerId>): Option<PeerId> {
    if s == [] then None
    else if s[0].id !in chosen then Some(s[0].id)
    else FirstOther(s[1..], chosen)
  }

  /** The place beyond the regular ones: the optimistic peer's if it may have it, else the next best's. */
  function WithLast(ranked: seq<Candidate>, chosen: set<PeerId>, optimistic: Option<PeerId>): set<PeerId> {
    if optimistic.Some? && optimistic.value in Ids(ranked) && optimistic.value !in chosen
    then chosen + {optimistic.value}
    else if FirstOther(ranked, chosen).Some? then chosen + {FirstOther(ranked, chosen).value}
    else chosen
  }

  function Regular(slots: nat): nat {
    if slots <= 1 then slots else slots - 1
  }

  function ChooseRanked(ranked: seq<Candidate>, slots: nat, optimistic: Option<PeerId>): set<PeerId> {
    var chosen := Ids(ranked[..Min(Regular(slots), |ranked|)]);
    if slots > 1 then WithLast(ranked, chosen, optimistic) else chosen
  }

  function Choose(peers: seq<Candidate>, slots: nat, optimistic: Option<PeerId>): set<PeerId> {
    if slots == 0 then {} else ChooseRanked(Sort(Interested(peers)), slots, optimistic)
  }

  // ---- what is chosen ---------------------------------------------------------

  lemma {:induction false} InterestedCount(a: seq<Candidate>, c: Candidate)
    ensures multiset(Interested(a))[c] == if c.interested then multiset(a)[c] else 0
  {
    if a != [] {
      InterestedCount(a[1..], c);
      assert a == [a[0]] + a[1..];
    }
  }

  lemma InterestedPermutes(a: seq<Candidate>, b: seq<Candidate>)
    requires multiset(a) == multiset(b)
    ensures multiset(Interested(a)) == multiset(Interested(b))
  {
    forall c ensures multiset(Interested(a))[c] == multiset(Interested(b))[c] {
      InterestedCount(a, c);
      InterestedCount(b, c);
    }
  }

  /** The choice does not depend on the order the peers come in. */
  lemma ChoiceIgnoresOrder(a: seq<Candidate>, b: seq<Candidate>, slots: nat, optimistic: Option<PeerId>)
    requires multiset(a) == multiset(b)
    ensures Choose(a, slots, optimistic) == Choose(b, slots, optimistic)
  {
    InterestedPermutes(a, b);
    var s, t := Sort(Interested(a)), Sort(Interested(b));
    SortRanked(Interested(a));
    SortRanked(Interested(b));
    InBoth(s, Interested(a));
    RankingUnique(s, t);
  }

  lemma IdsSnoc(s: seq<Candidate>, r: nat)
    requires r < |s|
    ensures Ids(s[..r + 1]) == Ids(s[..r]) + {s[r].id}
  {
    assert s[..r + 1] == s[..r] + [s[r]];
  }

  lemma DistinctSnoc(s: seq<Candidate>, r: nat)
    requires r < |s|
    ensures DistinctIds(s[..r + 1]) <==> DistinctIds(s[..r]) && s[r].id !in Ids(s[..r])
  {
    var all, front := s[..r + 1], s[..r];
    assert forall i :: 0 <= i < r ==> all[i] == front[i];
    if s[r].id in Ids(front) {
      var c :| c in front && c.id == s[r].id;
      var i :| 0 <= i < r && front[i] == c;
      assert all[i].id == all[r].id;
    } else if DistinctIds(front) {
      forall i, j | 0 <= i < j < |all| ensures all[i].id != all[j].id {
        assert all[i] == front[i] && front[i] in front;
      }
    } else {
      var i, j :| 0 <= i < j < r && front[i].id == front[j].id;
      assert all[i].id == all[j].id;
    }
  }

  lemma CountWith(a: set<PeerId>, x: PeerId)
    ensures |a + {x}| == if x in a then |a| else |a| + 1
  {
    if x in a { assert a + {x} == a; }
  }

  lemma {:induction false} CountAtMost(s: seq<Candidate>, r: nat)
    requires r <= |s|
    ensures |Ids(s[..r])| <= r
    decreases r
  {
    if r > 0 {
      CountAtMost(s, r - 1);
      IdsSnoc(s, r - 1);
      CountWith(Ids(s[..r - 1]), s[r - 1].id);
    }
  }

  lemma {:induction false} DistinctPrefix(s: seq<Candidate>, r: nat)
    requires r <= |s| && DistinctIds(s[..r])
    ensures |Ids(s[..r])| == r
    decreases r
  {
    if r > 0 {
      DistinctSnoc(s, r - 1);
      DistinctPrefix(s, r - 1);
      IdsSnoc(s, r - 1);
      CountWith(Ids(s[..r - 1]), s[r - 1].id);
    }
  }

  lemma {:induction false} FullPrefix(s: seq<Candidate>, r: nat)
    requires r <= |s| && |Ids(s[..r])| == r
    ensures DistinctIds(s[..r])
    decreases r
  {
    if r > 0 {
      CountAtMost(s, r - 1);
      IdsSnoc(s, r - 1);
      CountWith(Ids(s[..r - 1]), s[r - 1].id);
      FullPrefix(s, r - 1);
      DistinctSnoc(s, r - 1);
    }
  }

  lemma DistinctCount(s: seq<Candidate>)
    ensures DistinctIds(s) <==> |Ids(s)| == |s|
  {
    assert s[..|s|] == s;
    if DistinctIds(s) { DistinctPrefix(s, |s|); }
    if |Ids(s)| == |s| { FullPrefix(s, |s|); }
  }

  lemma {:induction false} InterestedDistinct(peers: seq<Candidate>)
    requires DistinctIds(peers)
    ensures DistinctIds(Interested(peers))
  {
    if peers != [] {
      InterestedDistinct(peers[1..]);
      var t := Interested(peers[1..]);
      if peers[0].interested {
        forall i | 0 <= i < |t| ensures t[i].id != peers[0].id {
          assert t[i] in peers[1..];
        }
      }
    }
  }

  /** The ranking the choice is made from. */
  lemma RankingOf(peers: seq<Candidate>)
    requires DistinctIds(peers)
    ensures var ranked, wanting := Sort(Interested(peers)), Interested(peers);
      && Ranked(ranked) && DistinctIds(ranked) && |ranked| == |wanting| && Ids(ranked) == Ids(wanting)
      && (forall c :: c in ranked <==> c in peers && c.interested)
  {
    var ranked, wanting := Sort(Interested(peers)), Interested(peers);
    SortRanked(wanting);
    InBoth(ranked, wanting);
    InterestedDistinct(peers);
    assert Ids(ranked) == Ids(wanting);
    DistinctCount(ranked);
    DistinctCount(wanting);
  }

  lemma PrefixCount(s: seq<Candidate>, n: nat)
    requires DistinctIds(s) && n <= |s|
    ensures |Ids(s[..n])| == n && Ids(s[..n]) <= Ids(s)
    ensures forall i :: 0 <= i < |s| ==> (s[i].id in Ids(s[..n]) <==> i < n)
  {
    DistinctPrefix(s, n);
    forall i | 0 <= i < |s| ensures s[i].id in Ids(s[..n]) <==> i < n {
      PrefixHolds(s, n, i);
    }
  }

  lemma PrefixHolds(s: seq<Candidate>, n: nat, i: nat)
    requires DistinctIds(s) && n <= |s| && i < |s|
    ensures s[i].id in Ids(s[..n]) <==> i < n
  {
    if i < n { assert s[..n][i] in s[..n]; }
  }

  lemma {:induction false} FirstOtherIs(s: seq<Candidate>, chosen: set<PeerId>, n: nat)
    requires n <= |s| && forall i :: 0 <= i < |s| ==> (s[i].id in chosen <==> i < n)
    ensures FirstOther(s, chosen) == if n < |s| then Some(s[n].id) else None
    decreases |s|
  {
    if s != [] && n > 0 { FirstOtherIs(s[1..], chosen, n - 1); }
  }

  /** The last place goes to the optimistic peer, or to the next best. */
  lemma LastPlace(ranked: seq<Candidate>, r: nat, optimistic: Option<PeerId>)
    requires DistinctIds(ranked) && r <= |ranked|
    ensures WithLast(ranked, Ids(ranked[..r]), optimistic) ==
      if optimistic.Some? && optimistic.value in Ids(ranked) && optimistic.value !in Ids(ranked[..r])
      then Ids(ranked[..r]) + {optimistic.value} else Ids(ranked[..Min(r + 1, |ranked|)])
  {
    PrefixCount(ranked, r);
    FirstOtherIs(ranked, Ids(ranked[..r]), r);
    if r < |ranked| { IdsSnoc(ranked, r); }
  }

  /** Whether the optimistic peer has the last place in its own right. */
  predicate TakesLast(ranked: seq<Candidate>, n: nat, optimistic: Option<PeerId>)
    requires n <= |ranked|
  {
    n > 0 && optimistic.Some? && optimistic.value in Ids(ranked) && optimistic.value !in Ids(ranked[..n - 1])
  }

  /** Who is chosen: the best, or the best but one place and the optimistic peer. */
  lemma ChosenAre(ranked: seq<Candidate>, slots: nat, optimistic: Option<PeerId>)
    requires DistinctIds(ranked) && slots > 0
    ensures var n, chosen := Min(slots, |ranked|), ChooseRanked(ranked, slots, optimistic);
      || chosen == Ids(ranked[..n])
      || (TakesLast(ranked, n, optimistic) && chosen == Ids(ranked[..n - 1]) + {optimistic.value})
  {
    if slots > 1 {
      var r := Min(slots - 1, |ranked|);
      LastPlace(ranked, r, optimistic);
      assert ranked[..|ranked|] == ranked;
    }
  }

  /** As many as there are slots and interested peers; only interested ones; the optimistic one among them if it is
      interested and there is more than one slot; and each of the others better than every interested peer left out. */
  lemma ChoiceIsBest(peers: seq<Candidate>, slots: nat, optimistic: Option<PeerId>)
    requires DistinctIds(peers)
    ensures var chosen, wanting := Choose(peers, slots, optimistic), Interested(peers);
      && chosen <= Ids(wanting) && |chosen| == Min(slots, |wanting|)
      && (slots > 1 && optimistic.Some? && optimistic.value in Ids(wanting) ==> optimistic.value in chosen)
      && (forall c, d ::
            c in wanting && d in wanting && c.id in chosen && d.id !in chosen && optimistic != Some(c.id) ==>
              Better(c, d))
  {
    if slots > 0 {
      RankingOf(peers);
      var ranked := Sort(Interested(peers));
      ChosenCount(ranked, slots, optimistic);
      if slots > 1 && optimistic.Some? && optimistic.value in Ids(ranked) {
        OptimisticChosen(ranked, slots, optimistic);
      }
      forall c, d | c in ranked && d in ranked && c.id in Choose(peers, slots, optimistic) && d.id !in Choose(peers,
            slots, optimistic) && optimistic != Some(c.id)
        ensures Better(c, d)
      {
        ChosenOutranks(ranked, slots, optimistic, c, d);
      }
    }
  }

  lemma ChoiceRanks(peers: seq<Candidate>, slots: nat, optimistic: Option<PeerId>, c: Candidate, d: Candidate)
    requires DistinctIds(peers) && c in Interested(peers) && d in Interested(peers)
    requires c.id in Choose(peers, slots, optimistic) && d.id !in Choose(peers, slots, optimistic)
    requires optimistic != Some(c.id)
    ensures Better(c, d)
  {
    ChoiceIsBest(peers, slots, optimistic);
  }

  /** The part of it that is about numbers. */
  lemma ChoiceCounts(peers: seq<Candidate>, slots: nat, optimistic: Option<PeerId>)
    requires DistinctIds(peers)
    ensures Choose(peers, slots, optimistic) <= Ids(Interested(peers))
    ensures |Choose(peers, slots, optimistic)| == Min(slots, |Interested(peers)|)
    ensures slots > 1 && optimistic.Some? && optimistic.value in Ids(Interested(peers)) ==>
      optimistic.value in Choose(peers, slots, optimistic)
  {
    ChoiceIsBest(peers, slots, optimistic);
  }

  lemma ChosenCount(ranked: seq<Candidate>, slots: nat, optimistic: Option<PeerId>)
    requires DistinctIds(ranked) && slots > 0
    ensures ChooseRanked(ranked, slots, optimistic) <= Ids(ranked)
    ensures |ChooseRanked(ranked, slots, optimistic)| == Min(slots, |ranked|)
  {
    var n := Min(slots, |ranked|);
    ChosenAre(ranked, slots, optimistic);
    PrefixCount(ranked, n);
    if n > 0 { PrefixCount(ranked, n - 1); }
  }

  lemma ChosenOutranks(ranked: seq<Candidate>, slots: nat, optimistic: Option<PeerId>, c: Candidate, d: Candidate)
    requires Ranked(ranked) && DistinctIds(ranked) && slots > 0 && c in ranked && d in ranked
    requires c.id in ChooseRanked(ranked, slots, optimistic) && d.id !in ChooseRanked(ranked, slots, optimistic)
    requires optimistic != Some(c.id)
    ensures Better(c, d)
  {
    var n := Min(slots, |ranked|);
    ChosenAre(ranked, slots, optimistic);
    if ChooseRanked(ranked, slots, optimistic) == Ids(ranked[..n]) {
      Outranks(ranked, n, c, d);
    } else {
      Outranks(ranked, n - 1, c, d);
    }
  }

  lemma OptimisticChosen(ranked: seq<Candidate>, slots: nat, optimistic: Option<PeerId>)
    requires slots > 1 && optimistic.Some? && optimistic.value in Ids(ranked)
    ensures optimistic.value in ChooseRanked(ranked, slots, optimistic)
  {
  }

  lemma Outranks(ranked: seq<Candidate>, n: nat, c: Candidate, d: Candidate)
    requires Ranked(ranked) && DistinctIds(ranked) && n <= |ranked| && c in ranked && d in ranked
    requires c.id in Ids(ranked[..n]) && d.id !in Ids(ranked[..n])
    ensures Better(c, d)
  {
    PrefixCount(ranked, n);
    var i :| 0 <= i < |ranked| && ranked[i] == c;
    var j :| 0 <= j < |ranked| && ranked[j] == d;
    assert i < n <= j;
    assert ranked[i].id != ranked[j].id && !Better(ranked[j], ranked[i]);
  }
}
