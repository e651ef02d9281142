/** Fetching a file's piece layer from a peer (src/session/layers.rs): range after range, each checked against the
    file's root, put together and cut to the pieces there are. */
module LayerFetch {
  import opened Numbers
  import opened Bytes
  import opened Merkle
  import opened HashFile
  import opened HashProofs
  import opened PiecePlan
  import opened HashSource

  const MAX_PIECES_PER_FILE: nat := 0x40_0000

  /** What a peer answers to the request for the range from an index: the hashes and the uncles after them; or
      nothing. */
  type Peer = nat -> Option<seq<Digest>>

  // ---- fetch_from_peer, for one file -----------------------------------------------

  /** How many layers above the pieces the root is. */
  function Top(length: nat, pieceLength: nat): nat
    requires pieceLength > 0
  {
    NextPowerOfTwoLeast(CeilDiv(length, pieceLength));
    TrailingZeros(NextPowerOfTwo(CeilDiv(length, pieceLength)))
  }

  /** A request is for 512 hashes, or for the whole layer if that is less: two to this power. */
  function Below(top: nat): nat {
    Min(top, 9)
  }

  /** How many requests a layer takes. */
  function Requests(top: nat): nat {
    Pow2(top - Below(top))
  }

  /** Where the range of request `k` begins. */
  function Place(b: nat, k: nat): nat {
    k * Pow2(b)
  }

  /** An answer as the hashes asked for and what comes after them; no answer is an empty one. */
  function Split(answer: Option<seq<Digest>>, per: nat): HashRange {
    match answer
    case Some(a) => HashRange(a[..Min(|a|, per)], a[Min(|a|, per)..])
    case None => HashRange([], [])
  }

  function Reply(peer: Peer, b: nat, k: nat): HashRange {
    Split(peer(Place(b, k)), Pow2(b))
  }

  /** Enough layers of proof to reach the root. */
  function ProofLayers(top: nat): nat {
    Max(top - 1, 0)
  }

  /** The answer has all the hashes, and leads to the root. */
  predicate Passes(h: Hasher, root: Digest, layer: nat, top: nat, index: nat, per: nat, r: HashRange) {
    |r.hashes| == per && Accepts(h, root, layer, layer + top, index, r.hashes, r.uncles, ProofLayers(top))
  }

  predicate Good(h: Hasher, root: Digest, layer: nat, top: nat, peer: Peer, k: nat) {
    Passes(h, root, layer, top, Place(Below(top), k), Pow2(Below(top)), Reply(peer, Below(top), k))
  }

  ghost predicate AllGood(h: Hasher, root: Digest, layer: nat, top: nat, peer: Peer, n: nat) {
    forall k: nat :: k < n ==> Good(h, root, layer, top, peer, k)
  }

  /** The hashes of the first `n` answers. */
  function Gathered(peer: Peer, b: nat, n: nat): seq<Digest> {
    if n == 0 then [] else Gathered(peer, b, n - 1) + Reply(peer, b, n - 1).hashes
  }

  function Cut(hashes: seq<Digest>, n: nat): seq<Digest> {
    hashes[..Min(n, |hashes|)]
  }

  lemma RequestShape(top: nat)
    ensures Min(Pow2(top), MAX_HASHES_PER_REQUEST) == Pow2(Below(top))
    ensures Pow2(top) == Requests(top) * Pow2(Below(top))
  {
    assert Pow2(4) == 16;
    assert Pow2(9) == 2 * (2 * (2 * (2 * (2 * Pow2(4)))));
    if top >= 9 {
      Pow2Monotone(9, top);
    } else {
      Pow2Monotone(top, 9);
    }
    Pow2Add(top - Below(top), Below(top));
  }

  /** The layer of a file longer than a piece, exactly when it is not too large and every range the peer sends leads to
      the root; so from a peer that answers with the file's own ranges, the file's true layer. */
  method FetchLayer(h: Hasher, root: Digest, length: nat, pieceLength: nat, peer: Peer, ghost data: seq<byte>)
    returns (r: Option<seq<Digest>>)
    requires ValidPieceLength(pieceLength) && length > pieceLength
    ensures var top, pieces := Top(length, pieceLength), CeilDiv(length, pieceLength);
      && (r.Some? <==>
            pieces <= MAX_PIECES_PER_FILE && AllGood(h, root, PieceLayer(pieceLength), top, peer, Requests(top)))
      && (r.Some? ==> r.value == Cut(Gathered(peer, Below(top), Requests(top)), pieces))
    ensures
      && |data| == length && root == FileRoot(h, data) && CeilDiv(length, pieceLength) <= MAX_PIECES_PER_FILE
      && PieceLayer(pieceLength) <= TreeHeight(length) && AnswersTruly(h, data, pieceLength, peer) ==>
        r == Some(TrueLayer(h, data, pieceLength))
  {
    var pieces, height, at := CeilDiv(length, pieceLength), FileHeight(length, pieceLength), PieceLayer(pieceLength);
    if pieces > MAX_PIECES_PER_FILE {
      return None;
    }
    var padded := Pow2(height - at);
    var perRequest := Min(padded, MAX_HASHES_PER_REQUEST);
    ghost var top := Top(length, pieceLength);
    LongerThanAPiece(length, pieceLength);
    RequestShape(top);
    r := FetchRanges(h, root, at, height, padded, perRequest, peer, top);
    if r.Some? {
      r := Some(Cut(r.value, pieces));
    }
    if |data| == length && root == FileRoot(h, data) {
      if PieceLayer(pieceLength) <= TreeHeight(length) && AnswersTruly(h, data, pieceLength, peer) {
        AnsweredIsFetched(h, data, pieceLength, peer);
      }
    }
  }

  /** The answers to the first `k` requests are good, and are what has been gathered. */
  ghost predicate SoFar(h: Hasher, root: Digest, at: nat, top: nat, peer: Peer, k: nat, index: nat,
                        layer: seq<Digest>) {
    index == Place(Below(top), k) && layer == Gathered(peer, Below(top), k) && AllGood(h, root, at, top, peer, k)
  }

  lemma OneMoreRange(h: Hasher, root: Digest, at: nat, top: nat, peer: Peer, k: nat, index: nat, layer: seq<Digest>)
    requires SoFar(h, root, at, top, peer, k, index, layer) && Good(h, root, at, top, peer, k)
    ensures SoFar(h, root, at, top, peer, k + 1, index + Pow2(Below(top)), layer + Reply(peer, Below(top), k).hashes)
  {
    NextPlace(Below(top), k);
  }

  lemma GoodHere(h: Hasher, root: Digest, at: nat, top: nat, peer: Peer, k: nat, index: nat, per: nat)
    requires index == Place(Below(top), k) && per == Pow2(Below(top))
    ensures Reply(peer, Below(top), k) == Split(peer(index), per)
    ensures Good(h, root, at, top, peer, k) <==> Passes(h, root, at, top, index, per, Split(peer(index), per))
  {
  }

  /** The loop over the ranges of one file. */
  method FetchRanges(h: Hasher, root: Digest, at: nat, height: nat, padded: nat, perRequest: nat, peer: Peer,
                     ghost top: nat)
    returns (r: Option<seq<Digest>>)
    requires top > 0 && height == at + top && padded == Pow2(top) && perRequest == Pow2(Below(top))
    ensures r.Some? <==> AllGood(h, root, at, top, peer, Requests(top))
    ensures r.Some? ==> r.value == Gathered(peer, Below(top), Requests(top))
  {
    ghost var k := 0;
    var layer: seq<Digest>, index: nat := [], 0;
    while index < padded
      invariant k <= Requests(top) && SoFar(h, root, at, top, peer, k, index, layer)
      decreases Requests(top) - k
    {
      StillAsking(top, k, index, padded);
      var part := AskFor(h, root, at, height, index, perRequest, height - at - 1, peer, top);
      GoodHere(h, root, at, top, peer, k, index, perRequest);
      if part.None? {
        return None;
      }
      OneMoreRange(h, root, at, top, peer, k, index, layer);
      layer := layer + part.value;
      index := index + perRequest;
      k := k + 1;
    }
    StillAsking(top, k, index, padded);
    return Some(layer);
  }

  lemma NextPlace(b: nat, k: nat)
    ensures Place(b, k + 1) == Place(b, k) + Pow2(b)
  {
  }

  lemma LongerThanAPiece(length: nat, pieceLength: nat)
    requires ValidPieceLength(pieceLength) && length > pieceLength
    ensures Top(length, pieceLength) > 0
    ensures FileHeight(length, pieceLength) == PieceLayer(pieceLength) + Top(length, pieceLength)
  {
    CeilDivBounds(length, pieceLength);
    var n := CeilDiv(length, pieceLength);
    if n <= 1 {
      MulMono(n, 1, pieceLength);
    }
    NextPowerOfTwoLeast(n);
    PowerOfTwoForm(NextPowerOfTwo(n));
  }

  lemma StillAsking(top: nat, k: nat, index: nat, padded: nat)
    requires k <= Requests(top) && index == Place(Below(top), k) && padded == Pow2(top)
    ensures index < padded <==> k < Requests(top)
  {
    RequestShape(top);
    ProductBelow(k, Requests(top), Pow2(Below(top)));
  }

  lemma ProductBelow(k: nat, n: nat, w: nat)
    requires k <= n && w > 0
    ensures k * w < n * w <==> k < n
  {
    if k < n {
      MulMono(k, n, w);
    }
  }

  /** One request, and the check of what comes back. */
  method AskFor(h: Hasher, root: Digest, at: nat, height: nat, index: nat, perRequest: nat, proofLayers: nat,
                peer: Peer,
                ghost top: nat) returns (r: Option<seq<Digest>>)
    requires height == at + top && proofLayers == ProofLayers(top)
    ensures r == var split := Split(peer(index), perRequest);
      if Passes(h, root, at, top, index, perRequest, split) then Some(split.hashes) else None
  {
    var answer := peer(index);
    if answer.None? || |answer.value| < perRequest {
      return None;
    }
    var hashes := answer.value[..perRequest];
    var ok := VerifyRange(h, root, at, height, index, hashes, answer.value[perRequest..], proofLayers);
    r := if ok then Some(hashes) else None;
  }

  // ---- ranges that lead to one root ------------------------------------------------

  /** Hashing the pairs of a level and then halving is halving. */
  lemma {:induction false} FoldUp(h: Hasher, t: nat, s: seq<Digest>)
    requires t > 0 && |s| == Pow2(t)
    ensures |s| % 2 == 0 && Fold(h, t, s) == Fold(h, t - 1, ParentLevel(h, s))
    decreases t
  {
    Pow2Even(t);
    if t > 1 {
      var q := Pow2(t - 2);
      FoldUp(h, t - 1, s[..2 * q]);
      FoldUp(h, t - 1, s[2 * q..]);
      ParentHalves(h, s, q);
    }
  }

  lemma ParentHalves(h: Hasher, s: seq<Digest>, q: nat)
    requires |s| == 4 * q
    ensures ParentLevel(h, s)[..q] == ParentLevel(h, s[..2 * q]) && ParentLevel(h, s)[q..] == ParentLevel(h, s[2 * q..])
  {
    forall i | 0 <= i < q
      ensures ParentLevel(h, s)[..q][i] == ParentLevel(h, s[..2 * q])[i]
      ensures ParentLevel(h, s)[q..][i] == ParentLevel(h, s[2 * q..])[i]
    {
      ParentsAt(h, s, q, i);
    }
  }

  lemma ParentsAt(h: Hasher, s: seq<Digest>, q: nat, i: nat)
    requires |s| == 4 * q && i < q
    ensures ParentLevel(h, s)[i] == ParentLevel(h, s[..2 * q])[i]
    ensures ParentLevel(h, s)[q + i] == ParentLevel(h, s[2 * q..])[i]
  {
    var a, b := s[..2 * q], s[2 * q..];
    assert a[2 * i] == s[2 * i] && a[2 * i + 1] == s[2 * i + 1];
    assert b[2 * i] == s[2 * (q + i)] && b[2 * i + 1] == s[2 * (q + i) + 1];
  }

  /** A tree over trees. */
  lemma {:induction false} FoldOfFolds(h: Hasher, b: nat, t: nat, all: seq<Digest>, nodes: seq<Digest>)
    requires |all| == Pow2(t) * Pow2(b) && |nodes| == Pow2(t) && Pow2(t) * Pow2(b) == Pow2(t + b)
    requires forall k: nat :: k < |nodes| ==> IsFold(h, b, all, nodes, k)
    ensures Fold(h, t + b, all) == Fold(h, t, nodes)
    decreases t
  {
    if t == 0 {
      assert IsFold(h, b, all, nodes, 0);
      assert all[0 * Pow2(b)..0 * Pow2(b) + Pow2(b)] == all;
    } else {
      var m, w := Pow2(t - 1), Pow2(b);
      Pow2Add(t - 1, b);
      forall k: nat | k < m
        ensures IsFold(h, b, all[..m * w], nodes[..m], k) && IsFold(h, b, all[m * w..], nodes[m..], k)
      {
        IsFoldHalf(h, b, all, nodes, m, k);
      }
      FoldOfFolds(h, b, t - 1, all[..m * w], nodes[..m]);
      FoldOfFolds(h, b, t - 1, all[m * w..], nodes[m..]);
    }
  }

  /** Node `k` is the root over its stretch. */
  ghost predicate IsFold(h: Hasher, b: nat, all: seq<Digest>, nodes: seq<Digest>, k: nat)
    requires k < |nodes|
  {
    var at := k * Pow2(b);
    at + Pow2(b) <= |all| && nodes[k] == Fold(h, b, all[at..at + Pow2(b)])
  }

  lemma IsFoldHalf(h: Hasher, b: nat, all: seq<Digest>, nodes: seq<Digest>, m: nat, k: nat)
    requires k < m && |nodes| == 2 * m && |all| == 2 * m * Pow2(b)
    requires IsFold(h, b, all, nodes, k) && IsFold(h, b, all, nodes, m + k)
    ensures m * Pow2(b) <= |all|
    ensures IsFold(h, b, all[..m * Pow2(b)], nodes[..m], k) && IsFold(h, b, all[m * Pow2(b)..], nodes[m..], k)
  {
    var w := Pow2(b);
    HalfPlaces(m, k, w);
    HalfSlices(all, m * w, k * w, w);
  }

  lemma HalfPlaces(m: nat, k: nat, w: nat)
    requires k < m
    ensures (m + k) * w == m * w + k * w && 2 * m * w == m * w + m * w && k * w + w <= m * w
  {
    MulMono(k + 1, m, w);
    assert (k + 1) * w == k * w + w;
  }

  lemma HalfSlices(all: seq<Digest>, half: nat, at: nat, w: nat)
    requires |all| == half + half && at + w <= half
    ensures all[..half][at..at + w] == all[at..at + w] && all[half..][at..at + w] == all[half + at..half + at + w]
  {
  }

  /** A climb from place `k` to the root, with nothing in it that collides. */
  ghost predicate Leads(h: Hasher, nodes: seq<Digest>, uncles: seq<seq<Digest>>, t: nat, root: Digest,
                        seen: set<Pair>, k: nat)
    requires k < |nodes| == |uncles|
  {
    && |uncles[k]| == t && Climb(h, nodes[k], k, uncles[k]) == root
    && ClimbPairs(h, nodes[k], k, uncles[k]) <= seen
  }

  /** Two neighbours that lead to one root are each other's uncle. */
  lemma Neighbours(h: Hasher, nodes: seq<Digest>, uncles: seq<seq<Digest>>, t: nat, root: Digest, seen: set<Pair>,
                   k: nat)
    requires 2 * k + 1 < |nodes| == |uncles| && t > 0 && NoCollision(h, seen)
    requires Leads(h, nodes, uncles, t, root, seen, 2 * k) && Leads(h, nodes, uncles, t, root, seen, 2 * k + 1)
    ensures var up := h.parent(nodes[2 * k], nodes[2 * k + 1]);
      Climb(h, up, k, uncles[2 * k][1..]) == root && ClimbPairs(h, up, k, uncles[2 * k][1..]) <= seen
  {
    var us, vs := uncles[2 * k], uncles[2 * k + 1];
    var p, q := InOrder(nodes[2 * k], 2 * k, us[0]), InOrder(nodes[2 * k + 1], 2 * k + 1, vs[0]);
    ClimbStep(h, nodes[2 * k], 2 * k, us);
    ClimbStep(h, nodes[2 * k + 1], 2 * k + 1, vs);
    assert (2 * k) / 2 == k && (2 * k + 1) / 2 == k;
    ClimbUnique(h, Up(h, p), us[1..], Up(h, q), vs[1..], k, seen);
    assert p in seen && q in seen && p == q;
  }

  /** Nodes side by side that all lead to one root are the level under it. */
  lemma {:induction false} ClimbsMeet(h: Hasher, nodes: seq<Digest>, uncles: seq<seq<Digest>>, t: nat, root: Digest,
                                      seen: set<Pair>)
    requires |nodes| == |uncles| == Pow2(t) && NoCollision(h, seen)
    requires forall k: nat :: k < |nodes| ==> Leads(h, nodes, uncles, t, root, seen, k)
    ensures Fold(h, t, nodes) == root
    decreases t
  {
    if t == 0 {
      assert Leads(h, nodes, uncles, t, root, seen, 0);
    } else {
      Pow2Even(t);
      var up := ParentLevel(h, nodes);
      var rest, lower := UpperUncles(uncles), t - 1;
      forall k: nat | k < |up|
        ensures Leads(h, up, rest, lower, root, seen, k)
      {
        assert Leads(h, nodes, uncles, t, root, seen, 2 * k) && Leads(h, nodes, uncles, t, root, seen, 2 * k + 1);
        Neighbours(h, nodes, uncles, t, root, seen, k);
      }
      ClimbsMeet(h, up, rest, lower, root, seen);
      FoldUp(h, t, nodes);
    }
  }

  /** The uncles of the level above: every other node's, less the first. */
  function UpperUncles(uncles: seq<seq<Digest>>): (rest: seq<seq<Digest>>)
    ensures |rest| == |uncles| / 2
  {
    seq(|uncles| / 2, k requires 0 <= k < |uncles| / 2 => if uncles[2 * k] == [] then [] else uncles[2 * k][1..])
  }

  // ---- what is gathered ------------------------------------------------------------

  /** Every answer is of the size asked for. */
  ghost predicate Sized(peer: Peer, b: nat, n: nat) {
    forall k: nat :: k < n ==> |Reply(peer, b, k).hashes| == Pow2(b)
  }

  lemma {:induction false} GatheredAt(peer: Peer, b: nat, n: nat)
    requires Sized(peer, b, n)
    ensures |Gathered(peer, b, n)| == n * Pow2(b)
    ensures forall k: nat :: k < n ==> GatheredHas(peer, b, n, k)
    decreases n
  {
    if n > 0 {
      GatheredAt(peer, b, n - 1);
      var front, last, w := Gathered(peer, b, n - 1), Reply(peer, b, n - 1).hashes, Pow2(b);
      assert n * w == (n - 1) * w + w;
      forall k: nat | k < n
        ensures GatheredHas(peer, b, n, k)
      {
        if k < n - 1 {
          assert GatheredHas(peer, b, n - 1, k);
          SliceOfFront(front, last, k * w, k * w + w);
        } else {
          BackOf(front, last);
        }
      }
    }
  }

  ghost predicate GatheredHas(peer: Peer, b: nat, n: nat, k: nat) {
    var at := k * Pow2(b);
    at + Pow2(b) <= |Gathered(peer, b, n)| && Gathered(peer, b, n)[at..at + Pow2(b)] == Reply(peer, b, k).hashes
  }

  /** None of the pairs hashed to check the answers collide. */
  ghost predicate AnswersApart(h: Hasher, peer: Peer, b: nat, n: nat, seen: set<Pair>) {
    && NoCollision(h, seen)
    && forall k: nat :: k < n && IsPowerOfTwo(|Reply(peer, b, k).hashes|) ==>
      CheckPairs(h, Place(b, k), Reply(peer, b, k)) <= seen
  }

  lemma GoodLeads(h: Hasher, root: Digest, layer: nat, top: nat, peer: Peer, n: nat, k: nat, seen: set<Pair>)
    requires Good(h, root, layer, top, peer, k) && k < n && AnswersApart(h, peer, Below(top), n, seen)
    ensures var b, r := Below(top), Reply(peer, Below(top), k);
      && |r.hashes| == Pow2(b) && |r.uncles| == top - b
      && Climb(h, Fold(h, b, r.hashes), k, r.uncles) == root && ClimbPairs(h, Fold(h, b, r.hashes), k, r.uncles) <= seen
  {
    Pow2IsPowerOfTwo(Below(top));
    PassesClimbs(h, root, layer, top, Below(top), k, Reply(peer, Below(top), k));
  }

  lemma PassesClimbs(h: Hasher, root: Digest, layer: nat, top: nat, b: nat, k: nat, r: HashRange)
    requires Passes(h, root, layer, top, Place(b, k), Pow2(b), r)
    ensures IsPowerOfTwo(|r.hashes|) && b + |r.uncles| == top && Climb(h, Fold(h, b, r.hashes), k, r.uncles) == root
    ensures ClimbPairs(h, Fold(h, b, r.hashes), k, r.uncles) <= CheckPairs(h, Place(b, k), r)
  {
    Pow2IsPowerOfTwo(b);
    RangeShape(layer, layer + top, Place(b, k), Pow2(b));
    SamePlace(k, Shr(Place(b, k), b), Pow2(b));
    NodeOfRange(h, Row(r.hashes, ZERO), r.hashes, b, 0);
  }

  lemma SamePlace(a: nat, b: nat, w: nat)
    requires w > 0 && a * w == b * w
    ensures a == b
  {
    assert (a + 1) * w == a * w + w && (b + 1) * w == b * w + w;
    if a < b {
      MulMono(a + 1, b, w);
    } else if b < a {
      MulMono(b + 1, a, w);
    }
  }

  function NodesOf(h: Hasher, peer: Peer, b: nat, n: nat): (nodes: seq<Digest>)
    requires Sized(peer, b, n)
    ensures |nodes| == n
  {
    seq(n, k requires 0 <= k < n => Fold(h, b, Reply(peer, b, k).hashes))
  }

  function AllUncles(peer: Peer, b: nat, n: nat): (uncles: seq<seq<Digest>>)
    ensures |uncles| == n
  {
    seq(n, k requires 0 <= k => Reply(peer, b, k).uncles)
  }

  lemma GoodIsSized(h: Hasher, root: Digest, layer: nat, top: nat, peer: Peer, n: nat)
    requires AllGood(h, root, layer, top, peer, n)
    ensures Sized(peer, Below(top), n)
  {
    forall k: nat | k < n ensures |Reply(peer, Below(top), k).hashes| == Pow2(Below(top)) {
      assert Good(h, root, layer, top, peer, k);
    }
  }

  lemma GatheredNode(h: Hasher, root: Digest, layer: nat, top: nat, peer: Peer, k: nat, seen: set<Pair>)
    requires AllGood(h, root, layer, top, peer, Requests(top)) && AnswersApart(h, peer, Below(top), Requests(top), seen)
    requires Sized(peer, Below(top), Requests(top)) && k < Requests(top)
    ensures var b, n := Below(top), Requests(top);
      && Leads(h, NodesOf(h, peer, b, n), AllUncles(peer, b, n), top - b, root, seen, k)
      && IsFold(h, b, Gathered(peer, b, n), NodesOf(h, peer, b, n), k)
  {
    var b, n := Below(top), Requests(top);
    RequestShape(top);
    GatheredAt(peer, b, n);
    assert Good(h, root, layer, top, peer, k) && GatheredHas(peer, b, n, k);
    GoodLeads(h, root, layer, top, peer, n, k, seen);
    assert NodesOf(h, peer, b, n)[k] == Fold(h, b, Reply(peer, b, k).hashes);
    assert AllUncles(peer, b, n)[k] == Reply(peer, b, k).uncles;
  }

  /** All nodes lead to the root, and each is the root over its stretch. */
  ghost predicate AllMeet(h: Hasher, b: nat, t: nat, all: seq<Digest>, nodes: seq<Digest>, uncles: seq<seq<Digest>>,
                          root: Digest, seen: set<Pair>) {
    && |nodes| == |uncles| == Pow2(t)
    && (forall k: nat :: k < |nodes| ==> Leads(h, nodes, uncles, t, root, seen, k))
    && (forall k: nat :: k < |nodes| ==> IsFold(h, b, all, nodes, k))
  }

  lemma MeetAndFold(h: Hasher, b: nat, t: nat, all: seq<Digest>, nodes: seq<Digest>, uncles: seq<seq<Digest>>,
                    root: Digest, seen: set<Pair>)
    requires |all| == Pow2(t + b) && NoCollision(h, seen) && AllMeet(h, b, t, all, nodes, uncles, root, seen)
    ensures Fold(h, t + b, all) == root
  {
    Pow2Add(t, b);
    ClimbsMeet(h, nodes, uncles, t, root, seen);
    FoldOfFolds(h, b, t, all, nodes);
  }

  lemma GatheredMeet(h: Hasher, root: Digest, layer: nat, top: nat, peer: Peer, seen: set<Pair>)
    requires AllGood(h, root, layer, top, peer, Requests(top)) && AnswersApart(h, peer, Below(top), Requests(top), seen)
    requires Sized(peer, Below(top), Requests(top))
    ensures var b, n := Below(top), Requests(top);
      AllMeet(h, b, top - b, Gathered(peer, b, n), NodesOf(h, peer, b, n), AllUncles(peer, b, n), root, seen)
  {
    var b, n, t := Below(top), Requests(top), top - Below(top);
    var all, nodes, uncles := Gathered(peer, b, n), NodesOf(h, peer, b, n), AllUncles(peer, b, n);
    forall k: nat | k < |nodes| ensures Leads(h, nodes, uncles, t, root, seen, k) {
      GatheredNode(h, root, layer, top, peer, k, seen);
    }
    forall k: nat | k < |nodes| ensures IsFold(h, b, all, nodes, k) {
      GatheredNode(h, root, layer, top, peer, k, seen);
    }
  }

  /** Ranges that all lead to one root are together the layer under that root. */
  lemma GatheredLeads(h: Hasher, root: Digest, layer: nat, top: nat, peer: Peer, seen: set<Pair>)
    requires AllGood(h, root, layer, top, peer, Requests(top)) && AnswersApart(h, peer, Below(top), Requests(top), seen)
    ensures |Gathered(peer, Below(top), Requests(top))| == Pow2(top)
    ensures Fold(h, top, Gathered(peer, Below(top), Requests(top))) == root
  {
    var b, n := Below(top), Requests(top);
    GoodIsSized(h, root, layer, top, peer, n);
    GatheredSize(peer, top);
    GatheredMeet(h, root, layer, top, peer, seen);
    MeetAndFold(h, b, top - b, Gathered(peer, b, n), NodesOf(h, peer, b, n), AllUncles(peer, b, n), root, seen);
  }

  lemma GatheredSize(peer: Peer, top: nat)
    requires Sized(peer, Below(top), Requests(top))
    ensures |Gathered(peer, Below(top), Requests(top))| == Pow2(top)
  {
    RequestShape(top);
    GatheredAt(peer, Below(top), Requests(top));
  }

  /** What is past the cut is the padding of the layer. */
  ghost predicate PaddedAfter(h: Hasher, all: seq<Digest>, pieces: nat, layer: nat) {
    forall i :: pieces <= i < |all| ==> all[i] == ZeroSubtree(h, layer)
  }

  /** A layer that was fetched passes the check of layers exactly when the hashes past the cut are padding. */
  lemma FetchedFits(h: Hasher, root: Digest, length: nat, pieceLength: nat, peer: Peer, seen: set<Pair>)
    requires ValidPieceLength(pieceLength) && length > pieceLength
    requires var top := Top(length, pieceLength);
      && AllGood(h, root, PieceLayer(pieceLength), top, peer, Requests(top))
      && AnswersApart(h, peer, Below(top), Requests(top), seen)
      && TreePairs(h, Row(Gathered(peer, Below(top), Requests(top)), ZERO), top) <= seen
      && LayerPairs(h, Cut(Gathered(peer, Below(top), Requests(top)), CeilDiv(length, pieceLength)),
                    pieceLength) <= seen
    ensures var all := Gathered(peer, Below(Top(length, pieceLength)), Requests(Top(length, pieceLength)));
      var pieces := CeilDiv(length, pieceLength);
      LayerFits(h, Cut(all, pieces), length, root, pieceLength)
      <==> PaddedAfter(h, all, pieces, PieceLayer(pieceLength))
  {
    var top, pieces := Top(length, pieceLength), CeilDiv(length, pieceLength);
    var all := Gathered(peer, Below(top), Requests(top));
    GatheredLeads(h, root, PieceLayer(pieceLength), top, peer, seen);
    NextPowerOfTwoLeast(pieces);
    PowerOfTwoForm(NextPowerOfTwo(pieces));
    CutFits(h, all, pieces, top, root, pieceLength, seen);
  }

  lemma CutFits(h: Hasher, all: seq<Digest>, pieces: nat, top: nat, root: Digest, pieceLength: nat, seen: set<Pair>)
    requires ValidPieceLength(pieceLength) && |all| == Pow2(top) && pieces <= |all| && Fold(h, top, all) == root
    requires IsPowerOfTwo(NextPowerOfTwo(pieces)) && top == TrailingZeros(NextPowerOfTwo(pieces))
    requires NoCollision(h, seen)
    requires TreePairs(h, Row(all, ZERO), top) <= seen && LayerPairs(h, Cut(all, pieces), pieceLength) <= seen
    ensures LayerTop(h, Cut(all, pieces), pieceLength) == root <==> PaddedAfter(h, all, pieces, PieceLayer(pieceLength))
  {
    var row := Row(Cut(all, pieces), ZeroSubtree(h, PieceLayer(pieceLength)));
    var w := Window(row, 0, Pow2(top));
    NodeIsFold(h, row, top, 0);
    assert 0 * Pow2(top) == 0;
    assert Window(Row(all, ZERO), 0, Pow2(top)) == all;
    if PaddedAfter(h, all, pieces, PieceLayer(pieceLength)) {
      assert w == all;
    }
    if LayerTop(h, Cut(all, pieces), pieceLength) == root {
      FoldInjective(h, top, w, all, seen);
    }
  }

  /** What is fetched for a file against the true root of its data is its true layer. */
  lemma FetchedIsTrue(h: Hasher, data: seq<byte>, pieceLength: nat, peer: Peer, seen: set<Pair>)
    requires ValidPieceLength(pieceLength) && |data| > pieceLength
    requires var top := Top(|data|, pieceLength);
      && AllGood(h, FileRoot(h, data), PieceLayer(pieceLength), top, peer, Requests(top))
      && AnswersTrusted(h, LayerRow(h, data, pieceLength), top, peer, seen)
    ensures var top := Top(|data|, pieceLength);
      Cut(Gathered(peer, Below(top), Requests(top)), CeilDiv(|data|, pieceLength)) == TrueLayer(h, data, pieceLength)
  {
    var top, row := Top(|data|, pieceLength), LayerRow(h, data, pieceLength);
    LayerRoot(h, data, pieceLength);
    LongerThanAPiece(|data|, pieceLength);
    GatheredIsTrue(h, row, PieceLayer(pieceLength), top, peer, seen);
    NextPowerOfTwoLeast(CeilDiv(|data|, pieceLength));
    PowerOfTwoForm(NextPowerOfTwo(CeilDiv(|data|, pieceLength)));
    CutWindow(row, Pow2(top));
  }

  lemma CutWindow(row: Row, n: nat)
    requires |row.cells| <= n
    ensures Cut(Window(row, 0, n), |row.cells|) == row.cells
  {
    forall i | 0 <= i < |row.cells| ensures Window(row, 0, n)[i] == row.cells[i] {
      assert Window(row, 0, n)[i] == row.At(0 + i);
    }
  }

  lemma GatheredIsTrue(h: Hasher, row: Row, layer: nat, top: nat, peer: Peer, seen: set<Pair>)
    requires top > 0 && AllGood(h, Node(h, row, top, 0), layer, top, peer, Requests(top))
    requires AnswersTrusted(h, row, top, peer, seen)
    ensures Gathered(peer, Below(top), Requests(top)) == Window(row, 0, Pow2(top))
  {
    var b, n := Below(top), Requests(top);
    forall k: nat | k < n
      ensures RangeHas(peer, b, row, k)
    {
      assert Good(h, Node(h, row, top, 0), layer, top, peer, k);
      PassesIsTrue(h, row, layer, top, Place(b, k), Pow2(b), Reply(peer, b, k), seen);
    }
    GatheredIsWindow(peer, b, n, row);
    RequestShape(top);
  }

  lemma PassesIsTrue(h: Hasher, row: Row, layer: nat, top: nat, index: nat, per: nat, r: HashRange, seen: set<Pair>)
    requires top > 0 && Passes(h, Node(h, row, top, 0), layer, top, index, per, r)
    requires Trusted(h, row, top, index, r, ProofLayers(top), seen)
    ensures r.hashes == Window(row, index, per)
  {
    var height := layer + top;
    assert height - layer == top && HashRange(r.hashes, r.uncles) == r;
    AcceptedIsTrue(h, row, layer, height, index, r.hashes, r.uncles, ProofLayers(top), seen);
  }

  /** The answer to request `k` is that stretch of the row. */
  ghost predicate RangeHas(peer: Peer, b: nat, row: Row, k: nat) {
    Reply(peer, b, k).hashes == Window(row, Place(b, k), Pow2(b))
  }

  function LayerRow(h: Hasher, data: seq<byte>, pieceLength: nat): Row
    requires ValidPieceLength(pieceLength)
  {
    Row(TrueLayer(h, data, pieceLength), ZeroSubtree(h, PieceLayer(pieceLength)))
  }

  /** No two collide of the pairs hashed to check the answers, or to check the true ones. */
  ghost predicate AnswersTrusted(h: Hasher, row: Row, top: nat, peer: Peer, seen: set<Pair>) {
    forall k: nat :: k < Requests(top) ==>
      Trusted(h, row, top, Place(Below(top), k), Reply(peer, Below(top), k), ProofLayers(top), seen)
  }

  lemma {:induction false} GatheredIsWindow(peer: Peer, b: nat, n: nat, row: Row)
    requires forall k: nat :: k < n ==> RangeHas(peer, b, row, k)
    ensures Gathered(peer, b, n) == Window(row, 0, Place(b, n))
    decreases n
  {
    if n > 0 {
      assert RangeHas(peer, b, row, n - 1);
      GatheredIsWindow(peer, b, n - 1, row);
      NextPlace(b, n - 1);
      WindowJoin(row, Place(b, n - 1), Pow2(b));
    }
  }

  lemma WindowJoin(row: Row, a: nat, b: nat)
    ensures Window(row, 0, a) + Window(row, a, b) == Window(row, 0, a + b)
  {
  }

  // ---- a peer that answers -----------------------------------------------------

  /** What a peer that has the file answers to request `k`: the file's own range, hashes and uncles. */
  function OwnAnswer(h: Hasher, data: seq<byte>, pieceLength: nat, k: nat): seq<Digest>
    requires ValidPieceLength(pieceLength) && PieceLayer(pieceLength) <= TreeHeight(|data|)
  {
    var top := TreeHeight(|data|) - PieceLayer(pieceLength);
    var r := RangeAt(h, FileRow(h, data), PieceLayer(pieceLength), TreeHeight(|data|), Place(Below(top), k),
                     Pow2(Below(top)), ProofLayers(top));
    r.hashes + r.uncles
  }

  ghost predicate AnswersTruly(h: Hasher, data: seq<byte>, pieceLength: nat, peer: Peer)
    requires ValidPieceLength(pieceLength) && PieceLayer(pieceLength) <= TreeHeight(|data|)
  {
    var top := TreeHeight(|data|) - PieceLayer(pieceLength);
    forall k: nat :: k < Requests(top) ==> peer(Place(Below(top), k)) == Some(OwnAnswer(h, data, pieceLength, k))
  }

  /** Every request that is made is one that may be answered. */
  lemma RequestsAllowed(layer: nat, top: nat, k: nat)
    requires top > 0 && k < Requests(top)
    ensures Allowed(layer, layer + top, Place(Below(top), k), Pow2(Below(top)))
    ensures Pow2(Below(top)) <= MAX_HASHES_PER_REQUEST
  {
    RequestShape(top);
    UnderIsAllowed(layer, layer + top, Below(top), k);
  }

  lemma TrueReply(h: Hasher, data: seq<byte>, pieceLength: nat, peer: Peer, k: nat)
    requires ValidPieceLength(pieceLength) && |data| > pieceLength && PieceLayer(pieceLength) <= TreeHeight(|data|)
    requires var top := TreeHeight(|data|) - PieceLayer(pieceLength);
      k < Requests(top) && peer(Place(Below(top), k)) == Some(OwnAnswer(h, data, pieceLength, k))
    ensures var top := TreeHeight(|data|) - PieceLayer(pieceLength);
      Reply(peer, Below(top), k)
      == RangeOf(h, LayerRow(h, data, pieceLength), top, Place(Below(top), k), Pow2(Below(top)), ProofLayers(top))
  {
    var top := TreeHeight(|data|) - PieceLayer(pieceLength);
    AnswerFromPieces(h, data, pieceLength, Place(Below(top), k), Pow2(Below(top)), ProofLayers(top));
    var r := RangeOf(h, LayerRow(h, data, pieceLength), top, Place(Below(top), k), Pow2(Below(top)), ProofLayers(top));
    SplitBack(r.hashes, r.uncles);
  }

  lemma SplitBack(hashes: seq<Digest>, uncles: seq<Digest>)
    ensures Split(Some(hashes + uncles), |hashes|) == HashRange(hashes, uncles)
  {
    assert (hashes + uncles)[..|hashes|] == hashes && (hashes + uncles)[|hashes|..] == uncles;
  }

  lemma TrueReplyPasses(h: Hasher, row: Row, layer: nat, top: nat, peer: Peer, k: nat)
    requires top > 0 && k < Requests(top)
    requires Reply(peer, Below(top), k)
          == RangeOf(h, row, top, Place(Below(top), k), Pow2(Below(top)), ProofLayers(top))
    ensures Good(h, Node(h, row, top, 0), layer, top, peer, k) && RangeHas(peer, Below(top), row, k)
  {
    var height := layer + top;
    assert height - layer == top;
    RequestsAllowed(layer, top, k);
    TrueRangeAccepted(h, row, layer, height, Place(Below(top), k), Pow2(Below(top)), ProofLayers(top));
  }

  lemma TopIsAbovePieces(length: nat, pieceLength: nat)
    requires ValidPieceLength(pieceLength) && length > pieceLength
    ensures PieceLayer(pieceLength) < TreeHeight(length)
    ensures Top(length, pieceLength) == TreeHeight(length) - PieceLayer(pieceLength) > 0
  {
    LongerThanAPiece(length, pieceLength);
    FileHeightIsTreeHeight(length, pieceLength);
  }

  /** From a peer that answers each request with the file's own range, the true layer is fetched. */
  lemma AnsweredIsFetched(h: Hasher, data: seq<byte>, pieceLength: nat, peer: Peer)
    requires ValidPieceLength(pieceLength) && |data| > pieceLength && PieceLayer(pieceLength) <= TreeHeight(|data|)
    requires AnswersTruly(h, data, pieceLength, peer)
    ensures var top := Top(|data|, pieceLength);
      && AllGood(h, FileRoot(h, data), PieceLayer(pieceLength), top, peer, Requests(top))
      && Cut(Gathered(peer, Below(top), Requests(top)), CeilDiv(|data|, pieceLength))
         == TrueLayer(h, data, pieceLength)
  {
    var top, row := Top(|data|, pieceLength), LayerRow(h, data, pieceLength);
    TopIsAbovePieces(|data|, pieceLength);
    LayerRoot(h, data, pieceLength);
    forall k: nat | k < Requests(top)
      ensures Good(h, FileRoot(h, data), PieceLayer(pieceLength), top, peer, k) && RangeHas(peer, Below(top), row, k)
    {
      TrueReply(h, data, pieceLength, peer, k);
      TrueReplyPasses(h, row, PieceLayer(pieceLength), top, peer, k);
    }
    GatheredIsWindow(peer, Below(top), Requests(top), row);
    RequestShape(top);
    CutToPieces(row, top, |data|, pieceLength);
  }

  lemma CutToPieces(row: Row, top: nat, length: nat, pieceLength: nat)
    requires pieceLength > 0 && |row.cells| == CeilDiv(length, pieceLength) && top == Top(length, pieceLength)
    ensures Cut(Window(row, 0, Pow2(top)), CeilDiv(length, pieceLength)) == row.cells
  {
    NextPowerOfTwoLeast(CeilDiv(length, pieceLength));
    PowerOfTwoForm(NextPowerOfTwo(CeilDiv(length, pieceLength)));
    CutWindow(row, Pow2(top));
  }
}
