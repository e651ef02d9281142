/** The merkle trees of BEP 52 (src/v2.rs): a row of hashes padded without end, the nodes above it,
    and the two ways of computing a root: level by level as the code does, and by halves. */
module Merkle {
  import opened Numbers
  import opened Bytes

  datatype Digest = Digest(bytes: seq<byte>)

  const ZERO: Digest := Digest([
    0, 0, 0, 0, 0, 0, 0, 0, 0, 0, 0, 0, 0, 0, 0, 0,
    0, 0, 0, 0, 0, 0, 0, 0, 0, 0, 0, 0, 0, 0, 0, 0])

  /** The two uses of SHA-256: over a pair of hashes, and over a block of data. */
  datatype Hasher = Hasher(parent: (Digest, Digest) -> Digest, leaf: seq<byte> -> Digest)

  /** Two hashes that are hashed together. */
  datatype Pair = Pair(left: Digest, right: Digest)

  /** No two of the pairs have one hash. Soundness needs this of the pairs that are in fact hashed, and of no others. */
  ghost predicate NoCollision(h: Hasher, pairs: set<Pair>) {
    forall p, q :: p in pairs && q in pairs && h.parent(p.left, p.right) == h.parent(q.left, q.right) ==> p == q
  }

  /** No two of the blocks have one hash, and none has the hash that pads. */
  ghost predicate NoLeafCollision(h: Hasher, blocks: set<seq<byte>>) {
    && (forall x, y :: x in blocks && y in blocks && h.leaf(x) == h.leaf(y) ==> x == y)
    && (forall x :: x in blocks ==> h.leaf(x) != ZERO)
  }

  /** A level of a tree: the hashes there are, then padding for ever. */
  datatype Row = Row(cells: seq<Digest>, pad: Digest) {
    function At(i: nat): Digest {
      if i < |cells| then cells[i] else pad
    }
  }

  /** The node `i` of the level `k` above a row. */
  function Node(h: Hasher, row: Row, k: nat, i: nat): Digest {
    if k == 0 then row.At(i) else h.parent(Node(h, row, k - 1, 2 * i), Node(h, row, k - 1, 2 * i + 1))
  }

  function Window(row: Row, from: nat, n: nat): (w: seq<Digest>)
    ensures |w| == n
  {
    seq(n, j requires 0 <= j < n => row.At(from + j))
  }

  /** The root of a complete tree by halves: the reference for what a merkle root is. */
  function Fold(h: Hasher, k: nat, leaves: seq<Digest>): Digest
    requires |leaves| == Pow2(k)
  {
    if k == 0 then leaves[0]
    else h.parent(Fold(h, k - 1, leaves[..Pow2(k - 1)]), Fold(h, k - 1, leaves[Pow2(k - 1)..]))
  }

  /** The pairs that are hashed on the way to that root. */
  ghost function FoldPairs(h: Hasher, k: nat, leaves: seq<Digest>): set<Pair>
    requires |leaves| == Pow2(k)
  {
    if k == 0 then {}
    else
      var a, b := leaves[..Pow2(k - 1)], leaves[Pow2(k - 1)..];
      {Pair(Fold(h, k - 1, a), Fold(h, k - 1, b))} + FoldPairs(h, k - 1, a) + FoldPairs(h, k - 1, b)
  }

  /** The pairs that are hashed in the tree of height `k` over a row. */
  ghost function TreePairs(h: Hasher, row: Row, k: nat): set<Pair> {
    FoldPairs(h, k, Window(row, 0, Pow2(k)))
  }

  lemma {:induction false} NodeIsFold(h: Hasher, row: Row, k: nat, i: nat)
    ensures Node(h, row, k, i) == Fold(h, k, Window(row, i * Pow2(k), Pow2(k)))
  {
    if k > 0 {
      var half, from := Pow2(k - 1), i * Pow2(k);
      NodeIsFold(h, row, k - 1, 2 * i);
      NodeIsFold(h, row, k - 1, 2 * i + 1);
      TwiceProduct(i, half);
      WindowHalves(row, from, half);
    }
  }

  lemma WindowHalves(row: Row, from: nat, half: nat)
    ensures Window(row, from, 2 * half)[..half] == Window(row, from, half)
    ensures Window(row, from, 2 * half)[half..] == Window(row, from + half, half)
  {
    var w := Window(row, from, 2 * half);
    forall j | 0 <= j < half ensures w[half..][j] == Window(row, from + half, half)[j] {
      assert w[half..][j] == w[half + j];
    }
  }

  /** A root and the pairs under it, by halves. */
  lemma FoldHalves(h: Hasher, k: nat, s: seq<Digest>, seen: set<Pair>) returns (a: seq<Digest>, b: seq<Digest>)
    requires k > 0 && |s| == Pow2(k) && FoldPairs(h, k, s) <= seen
    ensures |a| == |b| == Pow2(k - 1) && s == a + b
    ensures Fold(h, k, s) == h.parent(Fold(h, k - 1, a), Fold(h, k - 1, b))
    ensures Pair(Fold(h, k - 1, a), Fold(h, k - 1, b)) in seen
    ensures FoldPairs(h, k - 1, a) <= seen && FoldPairs(h, k - 1, b) <= seen
  {
    a, b := s[..Pow2(k - 1)], s[Pow2(k - 1)..];
  }

  /** Where no two of the pairs hashed collide, a root determines every leaf under it. */
  lemma {:induction false} FoldInjective(h: Hasher, k: nat, s: seq<Digest>, t: seq<Digest>, seen: set<Pair>)
    requires |s| == |t| == Pow2(k) && Fold(h, k, s) == Fold(h, k, t)
    requires NoCollision(h, seen) && FoldPairs(h, k, s) <= seen && FoldPairs(h, k, t) <= seen
    ensures s == t
    decreases k, 1
  {
    if k > 0 {
      var a, b := FoldHalves(h, k, s, seen);
      var c, d := FoldHalves(h, k, t, seen);
      HalvesInjective(h, k - 1, a, b, c, d, seen);
    }
  }

  lemma {:induction false} HalvesInjective(h: Hasher, j: nat, a: seq<Digest>, b: seq<Digest>, c: seq<Digest>,
                                           d: seq<Digest>, seen: set<Pair>)
    requires |a| == |b| == |c| == |d| == Pow2(j) && NoCollision(h, seen)
    requires h.parent(Fold(h, j, a), Fold(h, j, b)) == h.parent(Fold(h, j, c), Fold(h, j, d))
    requires Pair(Fold(h, j, a), Fold(h, j, b)) in seen && Pair(Fold(h, j, c), Fold(h, j, d)) in seen
    requires FoldPairs(h, j, a) <= seen && FoldPairs(h, j, b) <= seen
    requires FoldPairs(h, j, c) <= seen && FoldPairs(h, j, d) <= seen
    ensures a == c && b == d
    decreases j, 2
  {
    var p, q := Pair(Fold(h, j, a), Fold(h, j, b)), Pair(Fold(h, j, c), Fold(h, j, d));
    assert h.parent(p.left, p.right) == h.parent(q.left, q.right);
    FoldInjective(h, j, a, c, seen);
    FoldInjective(h, j, b, d, seen);
  }

  /** Two nodes over the same stretch of hashes are the same node. */
  lemma NodeOfWindow(h: Hasher, r: Row, i: nat, r': Row, i': nat, k: nat)
    requires Window(r, i * Pow2(k), Pow2(k)) == Window(r', i' * Pow2(k), Pow2(k))
    ensures Node(h, r, k, i) == Node(h, r', k, i')
  {
    NodeIsFold(h, r, k, i);
    NodeIsFold(h, r', k, i');
  }

  lemma RootInjective(h: Hasher, r: Row, r': Row, k: nat, seen: set<Pair>)
    requires Node(h, r, k, 0) == Node(h, r', k, 0)
    requires NoCollision(h, seen) && TreePairs(h, r, k) <= seen && TreePairs(h, r', k) <= seen
    ensures Window(r, 0, Pow2(k)) == Window(r', 0, Pow2(k))
  {
    NodeIsFold(h, r, k, 0);
    NodeIsFold(h, r', k, 0);
    assert 0 * Pow2(k) == 0;
    FoldInjective(h, k, Window(r, 0, Pow2(k)), Window(r', 0, Pow2(k)), seen);
  }

  /** A tree may be built on any of its own levels. */
  lemma {:induction false} NodeAboveLevel(h: Hasher, row: Row, k: nat, level: Row, j: nat, i: nat)
    requires forall n: nat :: level.At(n) == Node(h, row, k, n)
    ensures Node(h, level, j, i) == Node(h, row, k + j, i)
  {
    if j > 0 {
      NodeAboveLevel(h, row, k, level, j - 1, 2 * i);
      NodeAboveLevel(h, row, k, level, j - 1, 2 * i + 1);
    }
  }

  // ---- zero_subtree --------------------------------------------------------

  function ZeroSubtree(h: Hasher, k: nat): Digest {
    if k == 0 then ZERO else h.parent(ZeroSubtree(h, k - 1), ZeroSubtree(h, k - 1))
  }

  method ComputeZeroSubtree(h: Hasher, height: nat) returns (hash: Digest)
    ensures forall row: Row, i: nat :: row.pad == ZERO && |row.cells| <= i * Pow2(height) ==>
      hash == Node(h, row, height, i)
    ensures hash == ZeroSubtree(h, height)
  {
    hash := ZERO;
    for n := 0 to height
      invariant hash == ZeroSubtree(h, n)
    {
      hash := h.parent(hash, hash);
    }
    forall row: Row, i: nat | row.pad == ZERO && |row.cells| <= i * Pow2(height)
      ensures hash == Node(h, row, height, i)
    {
      NodeOfPadding(h, row, height, i);
    }
  }

  /** Beyond the hashes there are, every node is the zero subtree of its height. */
  lemma {:induction false} NodeOfPadding(h: Hasher, row: Row, k: nat, i: nat)
    requires row.pad == ZERO && |row.cells| <= i * Pow2(k)
    ensures Node(h, row, k, i) == ZeroSubtree(h, k)
  {
    if k > 0 {
      TwiceProduct(i, Pow2(k - 1));
      NodeOfPadding(h, row, k - 1, 2 * i);
      NodeOfPadding(h, row, k - 1, 2 * i + 1);
    }
  }

  // ---- merkle_root ---------------------------------------------------------

  /** `Vec::resize`. */
  function Resize(s: seq<Digest>, n: nat, pad: Digest): seq<Digest> {
    if |s| >= n then s[..n] else s + seq(n - |s|, i => pad)
  }

  lemma ResizeIsWindow(s: seq<Digest>, n: nat, pad: Digest)
    ensures Resize(s, n, pad) == Window(Row(s, pad), 0, n)
  {
    forall i | 0 <= i < n ensures Resize(s, n, pad)[i] == Window(Row(s, pad), 0, n)[i] {
      assert Window(Row(s, pad), 0, n)[i] == Row(s, pad).At(i);
    }
  }

  /** One level up: `chunks(2)`, each pair hashed. */
  function ParentLevel(h: Hasher, level: seq<Digest>): (up: seq<Digest>)
    requires |level| % 2 == 0
    ensures |up| == |level| / 2
  {
    seq(|level| / 2, i requires 0 <= i < |level| / 2 => h.parent(level[2 * i], level[2 * i + 1]))
  }

  /** Whether `level` is the level `k` of the tree over a row, as far as it goes. */
  ghost predicate IsLevel(h: Hasher, row: Row, k: nat, level: seq<Digest>) {
    forall i {:trigger level[i]} :: 0 <= i < |level| ==> level[i] == Node(h, row, k, i)
  }

  /** Whether `level` is the whole level `k` of a tree `height` levels high. */
  ghost predicate IsWholeLevel(h: Hasher, row: Row, height: nat, k: nat, level: seq<Digest>) {
    k <= height && |level| == Pow2(height - k) && IsLevel(h, row, k, level)
  }

  lemma LevelUp(h: Hasher, row: Row, height: nat, k: nat, level: seq<Digest>)
    requires IsWholeLevel(h, row, height, k, level) && |level| > 1
    ensures |level| % 2 == 0
    ensures IsWholeLevel(h, row, height, k + 1, ParentLevel(h, level))
  {
    Pow2Even(height - k);
    var up := ParentLevel(h, level);
    forall i | 0 <= i < |up| ensures up[i] == Node(h, row, k + 1, i) {
      assert up[i] == h.parent(level[2 * i], level[2 * i + 1]);
    }
  }

  lemma LevelZero(h: Hasher, leaves: seq<Digest>, height: nat, pad: Digest)
    ensures IsWholeLevel(h, Row(leaves, pad), height, 0, Resize(leaves, Pow2(height), pad))
  {
    ResizeIsWindow(leaves, Pow2(height), pad);
  }

  /** The root of the tree `width` wide over `leaves` and padding is the node at its top. */
  method MerkleRoot(h: Hasher, leaves: seq<Digest>, width: nat, pad: Digest) returns (root: Digest)
    requires IsPowerOfTwo(width)
    ensures root == Node(h, Row(leaves, pad), TrailingZeros(width), 0)
  {
    ghost var row, height, k := Row(leaves, pad), TrailingZeros(width), 0;
    PowerOfTwoForm(width);
    LevelZero(h, leaves, height, pad);
    var level := Resize(leaves, width, pad);
    while |level| > 1
      invariant IsWholeLevel(h, row, height, k, level)
      decreases |level|
    {
      LevelUp(h, row, height, k, level);
      level := ParentLevel(h, level);
      k := k + 1;
    }
    OneLeft(h, row, height, k, level);
    root := level[0];
  }

  lemma OneLeft(h: Hasher, row: Row, height: nat, k: nat, level: seq<Digest>)
    requires IsWholeLevel(h, row, height, k, level) && |level| <= 1
    ensures |level| == 1 && level[0] == Node(h, row, height, 0)
  {
  }

  /** What `merkle_root` computes is the root by halves of the leaves resized to the width. */
  lemma RootIsFold(h: Hasher, leaves: seq<Digest>, width: nat, pad: Digest)
    requires IsPowerOfTwo(width)
    ensures width == Pow2(TrailingZeros(width))
    ensures |Resize(leaves, width, pad)| == width
    ensures Node(h, Row(leaves, pad), TrailingZeros(width), 0)
         == Fold(h, TrailingZeros(width), Resize(leaves, width, pad))
  {
    PowerOfTwoForm(width);
    ResizeIsWindow(leaves, width, pad);
    NodeIsFold(h, Row(leaves, pad), TrailingZeros(width), 0);
  }
}
