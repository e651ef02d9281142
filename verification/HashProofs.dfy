/** Hash requests (BEP 52, src/v2.rs): a range of one layer of a file's tree with the uncles that carry it to the
    root, and the check of such an answer. */
module HashProofs {
  import opened Numbers
  import opened Merkle

  datatype HashRange = HashRange(hashes: seq<Digest>, uncles: seq<Digest>)

  /** Which ranges may be asked for: a power of two of at least two hashes, aligned, within the layer.
      (`index & (length - 1)` is `index % length` for a power of two.) */
  predicate Allowed(layerNumber: nat, height: nat, index: nat, length: nat) {
    && layerNumber < height
    && length >= 2 && IsPowerOfTwo(length)
    && index % length == 0
    && index + length <= Pow2(height - layerNumber)
  }

  /** `i ^ 1`. */
  function Sibling(i: nat): nat {
    if i % 2 == 0 then i + 1 else i - 1
  }

  /** How many `j` of `below..=proofLayers` come before `top`. */
  function UncleCount(below: nat, proofLayers: nat, top: nat): nat {
    Max(0, Min(proofLayers + 1, top) - below)
  }

  /** The true answer: the stretch of the row, and the sibling of its ancestor in each layer from the one where the
      stretch is a single node, as far as the proof layers reach short of the root. */
  function RangeOf(h: Hasher, row: Row, top: nat, index: nat, length: nat, proofLayers: nat): HashRange
    requires length > 0
  {
    HashRange(Window(row, index, length),
              Uncles(h, row, TrailingZeros(length), index, UncleCount(TrailingZeros(length), proofLayers, top)))
  }

  function Uncles(h: Hasher, row: Row, below: nat, index: nat, n: nat): (u: seq<Digest>)
    ensures |u| == n
  {
    seq(n, t requires 0 <= t < n => Node(h, row, below + t, Sibling(Shr(index, below + t))))
  }

  // ---- upper_layers, hash_range --------------------------------------------

  /** The lowest levels of the tree `top` high over a row, each of them whole. */
  ghost predicate AreLevels(h: Hasher, row: Row, top: nat, layers: seq<seq<Digest>>) {
    forall k :: 0 <= k < |layers| ==> IsWholeLevel(h, row, top, k, layers[k])
  }

  method UpperLayers(h: Hasher, layer: seq<Digest>, layerNumber: nat, height: nat) returns (layers: seq<seq<Digest>>)
    requires layerNumber <= height
    ensures |layers| == height - layerNumber + 1
    ensures AreLevels(h, Row(layer, ZeroSubtree(h, layerNumber)), height - layerNumber, layers)
  {
    var top := height - layerNumber;
    var pad := ComputeZeroSubtree(h, layerNumber);
    ghost var row := Row(layer, pad);
    LevelZero(h, layer, top, pad);
    var level := Resize(layer, Pow2(top), pad);
    layers := [level];
    while |layers[|layers| - 1]| > 1
      invariant 0 < |layers| <= top + 1
      invariant AreLevels(h, row, top, layers)
      decreases top + 1 - |layers|
    {
      layers := NextLevel(h, row, top, layers);
    }
    TopLevel(h, row, top, |layers| - 1, layers[|layers| - 1]);
  }

  method NextLevel(h: Hasher, ghost row: Row, ghost top: nat, layers: seq<seq<Digest>>) returns (more: seq<seq<Digest>>)
    requires |layers| > 0 && AreLevels(h, row, top, layers) && |layers[|layers| - 1]| > 1
    ensures |more| == |layers| + 1 <= top + 1 && AreLevels(h, row, top, more)
  {
    var last := layers[|layers| - 1];
    LevelUp(h, row, top, |layers| - 1, last);
    AddLevel(h, row, top, layers, ParentLevel(h, last));
    more := layers + [ParentLevel(h, last)];
  }

  lemma AddLevel(h: Hasher, row: Row, top: nat, layers: seq<seq<Digest>>, up: seq<Digest>)
    requires AreLevels(h, row, top, layers) && IsWholeLevel(h, row, top, |layers|, up)
    ensures |layers| <= top && AreLevels(h, row, top, layers + [up])
  {
  }

  lemma TopLevel(h: Hasher, row: Row, top: nat, k: nat, level: seq<Digest>)
    requires IsWholeLevel(h, row, top, k, level) && |level| <= 1
    ensures k == top
  {
  }

  lemma SiblingWithin(index: nat, top: nat, j: nat)
    requires index < Pow2(top) && j < top
    ensures Sibling(Shr(index, j)) < Pow2(top - j)
  {
    ShrBelow(index, j, top);
    assert Pow2(top - j) == 2 * Pow2(top - j - 1);
  }

  method HashRangeOf(h: Hasher, layer: seq<Digest>, layerNumber: nat, height: nat, index: nat, length: nat,
                     proofLayers: nat)
    returns (r: Option<HashRange>)
    ensures r ==
      if Allowed(layerNumber, height, index, length) && |layer| <= Pow2(height - layerNumber)
      then Some(RangeOf(h, Row(layer, ZeroSubtree(h, layerNumber)), height - layerNumber, index, length, proofLayers))
      else None
  {
    if !Allowed(layerNumber, height, index, length) || |layer| > Pow2(height - layerNumber) {
      return None;
    }
    var top := height - layerNumber;
    ghost var row := Row(layer, ZeroSubtree(h, layerNumber));
    var layers := UpperLayers(h, layer, layerNumber, height);
    assert IsWholeLevel(h, row, top, 0, layers[0]);
    var hashes := layers[0][index..index + length];
    assert hashes == Window(row, index, length);
    var below := TrailingZeros(length);
    ghost var wanted := RangeOf(h, row, top, index, length, proofLayers).uncles;
    var uncles, j := [], below;
    while j <= proofLayers && j < top
      invariant j == below + |uncles| && |uncles| <= |wanted|
      invariant uncles == wanted[..|uncles|]
    {
      SiblingWithin(index, top, j);
      assert IsWholeLevel(h, row, top, j, layers[j]);
      uncles := uncles + [layers[j][Sibling(Shr(index, j))]];
      j := j + 1;
    }
    assert |uncles| == |wanted| && wanted[..|wanted|] == wanted;
    r := Some(HashRange(hashes, uncles));
  }

  // ---- verify_range --------------------------------------------------------

  /** From a node at `position`, up past each uncle in turn. */
  function Climb(h: Hasher, node: Digest, position: nat, uncles: seq<Digest>): Digest
    decreases |uncles|
  {
    if uncles == [] then node
    else Climb(h, if position % 2 == 0 then h.parent(node, uncles[0]) else h.parent(uncles[0], node), position / 2,
               uncles[1..])
  }

  predicate Accepts(h: Hasher, root: Digest, layerNumber: nat, height: nat, index: nat, hashes: seq<Digest>,
                    uncles: seq<Digest>, proofLayers: nat) {
    && Allowed(layerNumber, height, index, |hashes|)
    && |uncles| == UncleCount(TrailingZeros(|hashes|), proofLayers, height - layerNumber)
    && layerNumber + TrailingZeros(|hashes|) + |uncles| == height
    && Climb(h, Node(h, Row(hashes, ZERO), TrailingZeros(|hashes|), 0), Shr(index, TrailingZeros(|hashes|)),
             uncles) == root
  }

  method VerifyRange(h: Hasher, root: Digest, layerNumber: nat, height: nat, index: nat, hashes: seq<Digest>,
                     uncles: seq<Digest>, proofLayers: nat)
    returns (ok: bool)
    ensures ok == Accepts(h, root, layerNumber, height, index, hashes, uncles, proofLayers)
  {
    var length := |hashes|;
    if !Allowed(layerNumber, height, index, length) {
      return false;
    }
    var below := TrailingZeros(length);
    var expected, j := 0, below;
    while j <= proofLayers && layerNumber + j < height
      invariant j == below + expected && expected <= UncleCount(below, proofLayers, height - layerNumber)
    {
      expected := expected + 1;
      j := j + 1;
    }
    if |uncles| != expected {
      return false;
    }
    var node := MerkleRoot(h, hashes, length, ZERO);
    var position := Shr(index, below);
    ghost var start, from := node, position;
    for i := 0 to |uncles|
      invariant position >= 0 && Climb(h, start, from, uncles) == Climb(h, node, position, uncles[i..])
    {
      assert uncles[i..][1..] == uncles[i + 1..];
      node := if position % 2 == 0 then h.parent(node, uncles[i]) else h.parent(uncles[i], node);
      position := position / 2;
    }
    ok := layerNumber + below + |uncles| == height && node == root;
  }

  // ---- which ranges, and which uncles --------------------------------------

  /** The whole stretch under node `q` of the layer `k` above, of a tree that goes on to `height`. */
  predicate UnderNode(layerNumber: nat, height: nat, index: nat, length: nat, k: nat, q: nat) {
    && 1 <= k <= height - layerNumber && q < Pow2(height - layerNumber - k)
    && index == q * Pow2(k) && length == Pow2(k)
  }

  /** What may be asked for is all that is under one node above the layer, and nothing else. */
  lemma AllowedExactly(layerNumber: nat, height: nat, index: nat, length: nat)
    ensures Allowed(layerNumber, height, index, length)
       <==> exists k: nat, q: nat :: UnderNode(layerNumber, height, index, length, k, q)
  {
    if Allowed(layerNumber, height, index, length) {
      AllowedIsUnder(layerNumber, height, index, length);
    }
    if k: nat, q: nat :| UnderNode(layerNumber, height, index, length, k, q) {
      UnderIsAllowed(layerNumber, height, k, q);
    }
  }

  lemma AllowedIsUnder(layerNumber: nat, height: nat, index: nat, length: nat)
    requires Allowed(layerNumber, height, index, length)
    ensures UnderNode(layerNumber, height, index, length, TrailingZeros(length), Shr(index, TrailingZeros(length)))
  {
    var k, top := TrailingZeros(length), height - layerNumber;
    RangeShape(layerNumber, height, index, length);
    Pow2Add(top - k, k);
    QuotientBelow(Shr(index, k), Pow2(top - k), length);
  }

  lemma QuotientBelow(q: nat, n: nat, w: nat)
    requires w > 0 && q * w + w <= n * w
    ensures q < n
  {
    if q >= n {
      MulMono(n, q, w);
    }
  }

  lemma UnderIsAllowed(layerNumber: nat, height: nat, k: nat, q: nat)
    requires 1 <= k <= height - layerNumber && q < Pow2(height - layerNumber - k)
    ensures Allowed(layerNumber, height, q * Pow2(k), Pow2(k))
  {
    var top := height - layerNumber;
    Pow2IsPowerOfTwo(k);
    Pow2Add(top - k, k);
    MulMono(q + 1, Pow2(top - k), Pow2(k));
    assert (q + 1) * Pow2(k) == q * Pow2(k) + Pow2(k);
    ProductDivides(q, Pow2(k));
  }

  lemma ProductDivides(q: nat, w: nat)
    requires w > 0
    ensures q * w % w == 0
  {
    var d := q * w / w;
    if d < q {
      MulMono(d, q, w);
    } else if q < d {
      MulMono(q, d, w);
    }
  }

  /** Each of those is answered with the hashes under that node, and proves itself exactly when the proof layers go up
      to the last below the root, or the node is the root. */
  lemma EveryNodeProves(h: Hasher, row: Row, layerNumber: nat, height: nat, k: nat, q: nat, proofLayers: nat)
    requires 1 <= k <= height - layerNumber && q < Pow2(height - layerNumber - k)
    ensures var r := RangeOf(h, row, height - layerNumber, q * Pow2(k), Pow2(k), proofLayers);
      && Allowed(layerNumber, height, q * Pow2(k), Pow2(k))
      && |r.hashes| == Pow2(k) && (forall i :: 0 <= i < Pow2(k) ==> r.hashes[i] == row.At(q * Pow2(k) + i))
      && var root := Node(h, row, height - layerNumber, 0);
      && (Accepts(h, root, layerNumber, height, q * Pow2(k), r.hashes, r.uncles, proofLayers)
          <==> height - layerNumber <= proofLayers + 1 || k == height - layerNumber)
  {
    var top := height - layerNumber;
    UnderIsAllowed(layerNumber, height, k, q);
    TrueRangeAccepted(h, row, layerNumber, height, q * Pow2(k), Pow2(k), proofLayers);
    if k < top {
      Pow2Monotone(k, top);
    }
  }

  /** The layers an answer has an uncle in: from the one where the range is one node, as far as the proof layers go and
      short of the root. */
  ghost function UncleLayers(below: nat, proofLayers: nat, top: nat): set<nat> {
    set j: nat | j < top && HasUncle(below, proofLayers, j)
  }

  predicate HasUncle(below: nat, proofLayers: nat, j: nat) {
    below <= j <= proofLayers
  }

  lemma {:induction false} UncleInEach(below: nat, proofLayers: nat, top: nat)
    ensures |UncleLayers(below, proofLayers, top)| == UncleCount(below, proofLayers, top)
    decreases top - below
  {
    var layers := UncleLayers(below, proofLayers, top);
    if below < top && below <= proofLayers {
      UncleInEach(below + 1, proofLayers, top);
      assert layers == {below} + UncleLayers(below + 1, proofLayers, top);
    } else {
      assert layers == {};
    }
  }

  /** The sibling is the other child of the same node. */
  lemma SiblingIs(i: nat)
    ensures Sibling(i) != i && Sibling(i) / 2 == i / 2 && Sibling(Sibling(i)) == i
  {
  }

  // ---- soundness and completeness ------------------------------------------

  function TrueUncles(h: Hasher, row: Row, k: nat, position: nat, n: nat): (u: seq<Digest>)
    ensures |u| == n
    decreases n
  {
    if n == 0 then [] else [Node(h, row, k, Sibling(position))] + TrueUncles(h, row, k + 1, position / 2, n - 1)
  }

  lemma {:induction false} TrueUnclesAt(h: Hasher, row: Row, k: nat, position: nat, n: nat, t: nat)
    requires t < n
    ensures TrueUncles(h, row, k, position, n)[t] == Node(h, row, k + t, Sibling(Shr(position, t)))
    decreases n
  {
    if t > 0 {
      TrueUnclesAt(h, row, k + 1, position / 2, n - 1, t - 1);
    }
  }

  /** A node and its sibling, in their order, are the children of the node above. */
  lemma {:induction false} ClimbTrue(h: Hasher, row: Row, k: nat, position: nat, n: nat)
    ensures Climb(h, Node(h, row, k, position), position, TrueUncles(h, row, k, position, n))
         == Node(h, row, k + n, Shr(position, n))
    decreases n
  {
    if n > 0 {
      var u := TrueUncles(h, row, k, position, n);
      assert u[1..] == TrueUncles(h, row, k + 1, position / 2, n - 1);
      ClimbTrue(h, row, k + 1, position / 2, n - 1);
    }
  }

  /** A node and its sibling in their order. */
  function InOrder(node: Digest, position: nat, uncle: Digest): Pair {
    if position % 2 == 0 then Pair(node, uncle) else Pair(uncle, node)
  }

  function Up(h: Hasher, p: Pair): Digest {
    h.parent(p.left, p.right)
  }

  /** The pairs that are hashed on a climb. */
  ghost function ClimbPairs(h: Hasher, node: Digest, position: nat, uncles: seq<Digest>): set<Pair>
    decreases |uncles|
  {
    if uncles == [] then {}
    else
      var p := InOrder(node, position, uncles[0]);
      {p} + ClimbPairs(h, Up(h, p), position / 2, uncles[1..])
  }

  lemma ClimbStep(h: Hasher, node: Digest, position: nat, uncles: seq<Digest>)
    requires uncles != []
    ensures Climb(h, node, position, uncles)
         == Climb(h, Up(h, InOrder(node, position, uncles[0])), position / 2, uncles[1..])
  {
  }

  /** Two climbs of one length from one place that end at one hash are the same climb, where no two of the pairs hashed
      collide. */
  lemma {:induction false} ClimbUnique(h: Hasher, a: Digest, us: seq<Digest>, b: Digest, vs: seq<Digest>,
                                       position: nat, seen: set<Pair>)
    requires |us| == |vs| && Climb(h, a, position, us) == Climb(h, b, position, vs)
    requires NoCollision(h, seen) && ClimbPairs(h, a, position, us) <= seen && ClimbPairs(h, b, position, vs) <= seen
    ensures a == b && us == vs
    decreases |us|
  {
    if us != [] {
      var p, q := InOrder(a, position, us[0]), InOrder(b, position, vs[0]);
      ClimbStep(h, a, position, us);
      ClimbStep(h, b, position, vs);
      ClimbUnique(h, Up(h, p), us[1..], Up(h, q), vs[1..], position / 2, seen);
      assert p in seen && q in seen && p == q;
      assert us == [us[0]] + us[1..] && vs == [vs[0]] + vs[1..];
    }
  }

  /** Only the true node and the true uncles climb to the true ancestor. */
  lemma ClimbSound(h: Hasher, row: Row, k: nat, node: Digest, position: nat, uncles: seq<Digest>, seen: set<Pair>)
    requires Climb(h, node, position, uncles) == Node(h, row, k + |uncles|, Shr(position, |uncles|))
    requires NoCollision(h, seen) && ClimbPairs(h, node, position, uncles) <= seen
    requires ClimbPairs(h, Node(h, row, k, position), position, TrueUncles(h, row, k, position, |uncles|)) <= seen
    ensures node == Node(h, row, k, position)
    ensures uncles == TrueUncles(h, row, k, position, |uncles|)
  {
    ClimbTrue(h, row, k, position, |uncles|);
    ClimbUnique(h, node, uncles, Node(h, row, k, position), TrueUncles(h, row, k, position, |uncles|), position, seen);
  }

  /** Whether the proof layers asked for carry the range to the root: they reach the last layer below it, or there
      is nothing to carry. */
  predicate Reaches(top: nat, length: nat, proofLayers: nat) {
    proofLayers + 1 >= top || length == Pow2(top)
  }

  /** The arithmetic of an allowed range: how far below the root it is, and where its own node is. */
  lemma RangeShape(layerNumber: nat, height: nat, index: nat, length: nat)
    requires Allowed(layerNumber, height, index, length)
    ensures length == Pow2(TrailingZeros(length)) && TrailingZeros(length) <= height - layerNumber
    ensures index == Shr(index, TrailingZeros(length)) * length
    ensures Shr(Shr(index, TrailingZeros(length)), height - layerNumber - TrailingZeros(length)) == 0
  {
    var below, top := TrailingZeros(length), height - layerNumber;
    PowerOfTwoForm(length);
    if below > top { Pow2Monotone(top, below); }
    ShrExact(index, below);
    ShrShr(index, below, top - below);
    ShrBelow(index, top, top);
  }

  lemma UnclesOfRange(h: Hasher, row: Row, top: nat, index: nat, length: nat, proofLayers: nat)
    requires length > 0
    ensures RangeOf(h, row, top, index, length, proofLayers).uncles
         == TrueUncles(h, row, TrailingZeros(length), Shr(index, TrailingZeros(length)),
                       UncleCount(TrailingZeros(length), proofLayers, top))
  {
    var below := TrailingZeros(length);
    var n := UncleCount(below, proofLayers, top);
    forall t: nat | t < n
      ensures TrueUncles(h, row, below, Shr(index, below), n)[t] == Uncles(h, row, below, index, n)[t]
    {
      ShrShr(index, below, t);
      TrueUnclesAt(h, row, below, Shr(index, below), n, t);
    }
  }

  lemma CountReaches(below: nat, top: nat, proofLayers: nat)
    requires below <= top
    ensures below + UncleCount(below, proofLayers, top) == top <==> Reaches(top, Pow2(below), proofLayers)
  {
    if below < top { Pow2Monotone(below, top); }
  }

  /** The node over an allowed range. */
  lemma NodeOfRange(h: Hasher, row: Row, hashes: seq<Digest>, below: nat, q: nat)
    requires |hashes| == Pow2(below)
    ensures Node(h, Row(hashes, ZERO), below, 0) == Fold(h, below, hashes)
    ensures Node(h, row, below, q) == Fold(h, below, Window(row, q * Pow2(below), Pow2(below)))
  {
    var own := Row(hashes, ZERO);
    assert hashes == Window(own, 0, Pow2(below)) && 0 * Pow2(below) == 0;
    NodeIsFold(h, own, below, 0);
    NodeIsFold(h, row, below, q);
  }

  /** Completeness: the true answer to an allowed request is accepted exactly when the proof reaches the root. */
  lemma TrueRangeAccepted(h: Hasher, row: Row, layerNumber: nat, height: nat, index: nat, length: nat, proofLayers: nat)
    requires Allowed(layerNumber, height, index, length)
    ensures var r := RangeOf(h, row, height - layerNumber, index, length, proofLayers);
      Accepts(h, Node(h, row, height - layerNumber, 0), layerNumber, height, index, r.hashes, r.uncles, proofLayers)
      <==> Reaches(height - layerNumber, length, proofLayers)
  {
    var below, top := TrailingZeros(length), height - layerNumber;
    var r := RangeOf(h, row, top, index, length, proofLayers);
    RangeShape(layerNumber, height, index, length);
    CountReaches(below, top, proofLayers);
    if Reaches(top, length, proofLayers) {
      UnclesOfRange(h, row, top, index, length, proofLayers);
      NodeOfRange(h, row, r.hashes, below, Shr(index, below));
      ClimbTrue(h, row, below, Shr(index, below), top - below);
    }
  }

  /** The pairs that are hashed to check an answer. */
  ghost function CheckPairs(h: Hasher, index: nat, r: HashRange): set<Pair>
    requires IsPowerOfTwo(|r.hashes|)
  {
    PowerOfTwoForm(|r.hashes|);
    var below := TrailingZeros(|r.hashes|);
    FoldPairs(h, below, r.hashes) + ClimbPairs(h, Fold(h, below, r.hashes), Shr(index, below), r.uncles)
  }

  /** No two of the pairs hashed to check an answer, or to check the true one, collide. */
  ghost predicate Trusted(h: Hasher, row: Row, top: nat, index: nat, r: HashRange, proofLayers: nat, seen: set<Pair>) {
    && NoCollision(h, seen)
    && (IsPowerOfTwo(|r.hashes|) ==>
      && CheckPairs(h, index, r) <= seen
      && CheckPairs(h, index, RangeOf(h, row, top, index, |r.hashes|, proofLayers)) <= seen)
  }

  /** Soundness: against the root of a row nothing is accepted but that row's own range at that index with its own
      uncles, and that only when the proof reaches the root. */
  lemma AcceptedExactly(h: Hasher, row: Row, layerNumber: nat, height: nat, index: nat, hashes: seq<Digest>,
                        uncles: seq<Digest>, proofLayers: nat, seen: set<Pair>)
    requires layerNumber < height
    requires Trusted(h, row, height - layerNumber, index, HashRange(hashes, uncles), proofLayers, seen)
    ensures Accepts(h, Node(h, row, height - layerNumber, 0), layerNumber, height, index, hashes, uncles, proofLayers)
      <==>
      && Allowed(layerNumber, height, index, |hashes|)
      && Reaches(height - layerNumber, |hashes|, proofLayers)
      && HashRange(hashes, uncles) == RangeOf(h, row, height - layerNumber, index, |hashes|, proofLayers)
  {
    if Allowed(layerNumber, height, index, |hashes|) {
      TrueRangeAccepted(h, row, layerNumber, height, index, |hashes|, proofLayers);
      if Accepts(h, Node(h, row, height - layerNumber, 0), layerNumber, height, index, hashes, uncles, proofLayers) {
        AcceptedIsTrue(h, row, layerNumber, height, index, hashes, uncles, proofLayers, seen);
      }
    }
  }

  lemma AcceptedIsTrue(h: Hasher, row: Row, layerNumber: nat, height: nat, index: nat, hashes: seq<Digest>,
                       uncles: seq<Digest>, proofLayers: nat, seen: set<Pair>)
    requires layerNumber < height
    requires Trusted(h, row, height - layerNumber, index, HashRange(hashes, uncles), proofLayers, seen)
    requires Accepts(h, Node(h, row, height - layerNumber, 0), layerNumber, height, index, hashes, uncles, proofLayers)
    ensures HashRange(hashes, uncles) == RangeOf(h, row, height - layerNumber, index, |hashes|, proofLayers)
    ensures Reaches(height - layerNumber, |hashes|, proofLayers)
  {
    var below, top := TrailingZeros(|hashes|), height - layerNumber;
    var q, truth := Shr(index, below), RangeOf(h, row, top, index, |hashes|, proofLayers);
    RangeShape(layerNumber, height, index, |hashes|);
    CountReaches(below, top, proofLayers);
    NodeOfRange(h, row, hashes, below, q);
    UnclesOfRange(h, row, top, index, |hashes|, proofLayers);
    ClimbSound(h, row, below, Fold(h, below, hashes), q, uncles, seen);
    FoldInjective(h, below, hashes, truth.hashes, seen);
  }
}
