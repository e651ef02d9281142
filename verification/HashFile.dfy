/** A file's tree (src/v2.rs): its blocks, its piece layer, and its `pieces root`. */
module HashFile {
  import opened Numbers
  import opened Bytes
  import opened Merkle

  const BLOCK: nat := 16384

  predicate ValidPieceLength(pieceLength: int) {
    pieceLength >= BLOCK && IsPowerOfTwo(pieceLength)
  }

  /** The hash of each block, the last as short as it is. */
  function BlockHashes(h: Hasher, data: seq<byte>): (hashes: seq<Digest>)
    ensures |hashes| == CeilDiv(|data|, BLOCK)
  {
    seq(CeilDiv(|data|, BLOCK), i requires 0 <= i < CeilDiv(|data|, BLOCK) =>
      ChunkStarts(|data|, BLOCK, i); h.leaf(Chunk(data, BLOCK, i)))
  }

  /** The leaves of a file's tree. */
  function FileRow(h: Hasher, data: seq<byte>): Row {
    Row(BlockHashes(h, data), ZERO)
  }

  /** How high the tree over all the blocks of a file of `length` bytes is. */
  function TreeHeight(length: nat): nat {
    NextPowerOfTwoLeast(CeilDiv(length, BLOCK));
    TrailingZeros(NextPowerOfTwo(CeilDiv(length, BLOCK)))
  }

  /** The merkle root of all the block hashes, zero-padded to the next power of two. */
  function FileRoot(h: Hasher, data: seq<byte>): Digest {
    Node(h, FileRow(h, data), TreeHeight(|data|), 0)
  }

  function PieceLayer(pieceLength: nat): nat
    requires ValidPieceLength(pieceLength)
  {
    TrailingZeros(pieceLength / BLOCK)
  }

  /** The nodes of a file's tree at the height of a piece. */
  function TrueLayer(h: Hasher, data: seq<byte>, pieceLength: nat): (layer: seq<Digest>)
    requires ValidPieceLength(pieceLength)
    ensures |layer| == CeilDiv(|data|, pieceLength)
  {
    seq(CeilDiv(|data|, pieceLength), i requires 0 <= i => Node(h, FileRow(h, data), PieceLayer(pieceLength), i))
  }

  function FileHeight(length: nat, pieceLength: nat): nat
    requires ValidPieceLength(pieceLength)
  {
    NextPowerOfTwoLeast(CeilDiv(length, pieceLength));
    PieceLayer(pieceLength) + TrailingZeros(NextPowerOfTwo(CeilDiv(length, pieceLength)))
  }

  lemma PieceLengthForm(pieceLength: nat)
    requires ValidPieceLength(pieceLength)
    ensures IsPowerOfTwo(pieceLength / BLOCK)
    ensures pieceLength / BLOCK == Pow2(PieceLayer(pieceLength))
    ensures pieceLength == Pow2(PieceLayer(pieceLength)) * BLOCK
  {
    var m := TrailingZeros(pieceLength);
    PowerOfTwoForm(pieceLength);
    BlockIsPower();
    if m < 14 { Pow2Monotone(m, 14); }
    Pow2Add(m - 14, 14);
    DivisionForm(pieceLength, BLOCK, Pow2(m - 14), 0);
    Pow2IsPowerOfTwo(m - 14);
  }

  lemma BlockIsPower()
    ensures Pow2(14) == BLOCK
  {
    assert Pow2(7) == 128;
    Pow2Add(7, 7);
  }

  // ---- a piece is a subtree of its file -------------------------------------

  /** The leaves of a piece hashed on its own are the file's leaves at that piece, padding included. */
  lemma PieceWindow(h: Hasher, data: seq<byte>, pieceLength: nat, w: nat, q: nat)
    requires w > 0 && pieceLength == w * BLOCK && q * pieceLength <= |data|
    ensures Window(FileRow(h, Chunk(data, pieceLength, q)), 0, w) == Window(FileRow(h, data), q * w, w)
  {
    var piece := Chunk(data, pieceLength, q);
    var own, all := FileRow(h, piece), FileRow(h, data);
    forall t: nat | t < w ensures Window(own, 0, w)[t] == Window(all, q * w, w)[t] {
      PieceLeaf(h, data, w, q, t);
    }
  }

  lemma PieceLeaf(h: Hasher, data: seq<byte>, w: nat, q: nat, t: nat)
    requires t < w && w * BLOCK > 0 && q * (w * BLOCK) <= |data|
    ensures FileRow(h, Chunk(data, w * BLOCK, q)).At(t) == FileRow(h, data).At(q * w + t)
  {
    var piece := Chunk(data, w * BLOCK, q);
    ChunkPlaces(BLOCK, w, q, t);
    var at, off := q * (w * BLOCK), t * BLOCK;
    if off < |piece| {
      ChunkExists(|piece|, BLOCK, t);
      ChunkOfChunk(data, BLOCK, w, q, t);
      ChunkExists(|data|, BLOCK, q * w + t);
    } else {
      if t < CeilDiv(|piece|, BLOCK) { ChunkStarts(|piece|, BLOCK, t); }
      if q * w + t < CeilDiv(|data|, BLOCK) { ChunkStarts(|data|, BLOCK, q * w + t); }
    }
  }

  lemma PieceNode(h: Hasher, data: seq<byte>, pieceLength: nat, q: nat)
    requires ValidPieceLength(pieceLength) && q * pieceLength <= |data|
    ensures Node(h, FileRow(h, Chunk(data, pieceLength, q)), PieceLayer(pieceLength), 0)
         == Node(h, FileRow(h, data), PieceLayer(pieceLength), q)
  {
    var k := PieceLayer(pieceLength);
    PieceLengthForm(pieceLength);
    PieceWindow(h, data, pieceLength, Pow2(k), q);
    NodeOfWindow(h, FileRow(h, Chunk(data, pieceLength, q)), 0, FileRow(h, data), q, k);
  }

  // ---- the root does not depend on the piece length --------------------------

  /** The piece layer, padded with zero subtrees, is that level of the file's tree for ever. */
  lemma LayerIsLevel(h: Hasher, data: seq<byte>, pieceLength: nat, n: nat)
    requires ValidPieceLength(pieceLength)
    ensures Row(TrueLayer(h, data, pieceLength), ZeroSubtree(h, PieceLayer(pieceLength))).At(n)
         == Node(h, FileRow(h, data), PieceLayer(pieceLength), n)
  {
    var k := PieceLayer(pieceLength);
    if n >= CeilDiv(|data|, pieceLength) {
      PieceLengthForm(pieceLength);
      CeilDivTwice(|data|, BLOCK, Pow2(k));
      var blocks := CeilDiv(|data|, BLOCK);
      CeilDivBounds(blocks, Pow2(k));
      MulMono(CeilDiv(blocks, Pow2(k)), n, Pow2(k));
      NodeOfPadding(h, FileRow(h, data), k, n);
    }
  }

  lemma LayerNode(h: Hasher, data: seq<byte>, pieceLength: nat, j: nat, i: nat)
    requires ValidPieceLength(pieceLength)
    ensures Node(h, Row(TrueLayer(h, data, pieceLength), ZeroSubtree(h, PieceLayer(pieceLength))), j, i)
         == Node(h, FileRow(h, data), PieceLayer(pieceLength) + j, i)
  {
    var level := Row(TrueLayer(h, data, pieceLength), ZeroSubtree(h, PieceLayer(pieceLength)));
    forall n: nat ensures level.At(n) == Node(h, FileRow(h, data), PieceLayer(pieceLength), n) {
      LayerIsLevel(h, data, pieceLength, n);
    }
    NodeAboveLevel(h, FileRow(h, data), PieceLayer(pieceLength), level, j, i);
  }

  /** `file_height` is the height of the tree over all the blocks exactly when the file is longer than a piece, or fills
      more than half of one. */
  lemma FileHeightIsTreeHeight(length: nat, pieceLength: nat)
    requires ValidPieceLength(pieceLength)
    ensures FileHeight(length, pieceLength) == TreeHeight(length)
       <==> length > pieceLength || 2 * Max(CeilDiv(length, BLOCK), 1) > pieceLength / BLOCK
  {
    if length > pieceLength {
      LongFileHeight(length, pieceLength);
    } else {
      ShortFileHeight(length, pieceLength);
    }
  }

  /** The witness: a file of one block, whatever the piece length above one block, of which there is one. */
  lemma OneBlockFile(length: nat, pieceLength: nat)
    requires 0 < length <= BLOCK < pieceLength && ValidPieceLength(pieceLength)
    ensures TreeHeight(length) == 0 < FileHeight(length, pieceLength) && ValidPieceLength(2 * BLOCK)
  {
    ShortFileHeight(length, pieceLength);
    CeilDivUnique(length, BLOCK, 1);
    PieceLengthForm(pieceLength);
    assert IsPowerOfTwo(2 * BLOCK);
  }

  lemma ShortFileHeight(length: nat, pieceLength: nat)
    requires ValidPieceLength(pieceLength) && length <= pieceLength
    ensures FileHeight(length, pieceLength) == PieceLayer(pieceLength)
    ensures TreeHeight(length) == PieceLayer(pieceLength) <==> 2 * Max(CeilDiv(length, BLOCK), 1) > pieceLength / BLOCK
  {
    var k, blocks := PieceLayer(pieceLength), CeilDiv(length, BLOCK);
    PieceLengthForm(pieceLength);
    CeilDivBounds(length, BLOCK);
    CeilDivUnique(length, pieceLength, if length == 0 then 0 else 1);
    assert NextPowerOfTwo(CeilDiv(length, pieceLength)) == 1;
    var width := NextPowerOfTwo(blocks);
    NextPowerOfTwoLeast(blocks);
    PowerOfTwoForm(width);
    Pow2IsPowerOfTwo(k);
    if blocks > 0 && 2 * blocks > Pow2(k) {
      NextPowerOfTwoUnique(blocks, k);
    }
  }

  lemma LongFileHeight(length: nat, pieceLength: nat)
    requires ValidPieceLength(pieceLength) && length > pieceLength
    ensures FileHeight(length, pieceLength) == TreeHeight(length)
  {
    var k, blocks := PieceLayer(pieceLength), CeilDiv(length, BLOCK);
    PieceLengthForm(pieceLength);
    CeilDivTwice(length, BLOCK, Pow2(k));
    CeilDivBounds(length, BLOCK);
    var n := CeilDiv(blocks, Pow2(k));
    NextPowerOfTwoOfPieces(blocks, k);
    NextPowerOfTwoLeast(n);
    PowerOfTwoForm(NextPowerOfTwo(n));
    var j := TrailingZeros(NextPowerOfTwo(n));
    Pow2Add(j, k);
    Pow2IsPowerOfTwo(j + k);
  }

  /** Whatever the piece length, the root over the padded piece layer is the root over all the blocks. */
  lemma LayerRoot(h: Hasher, data: seq<byte>, pieceLength: nat)
    requires ValidPieceLength(pieceLength) && |data| > pieceLength
    ensures IsPowerOfTwo(NextPowerOfTwo(CeilDiv(|data|, pieceLength)))
    ensures Node(h, Row(TrueLayer(h, data, pieceLength), ZeroSubtree(h, PieceLayer(pieceLength))),
                 TrailingZeros(NextPowerOfTwo(CeilDiv(|data|, pieceLength))), 0) == FileRoot(h, data)
  {
    NextPowerOfTwoLeast(CeilDiv(|data|, pieceLength));
    LayerNode(h, data, pieceLength, TrailingZeros(NextPowerOfTwo(CeilDiv(|data|, pieceLength))), 0);
    FileHeightIsTreeHeight(|data|, pieceLength);
  }

  // ---- piece_hash, merkle_matches, hash_file --------------------------------

  method PieceHash(h: Hasher, data: seq<byte>, pieceLength: nat) returns (hash: Digest)
    requires ValidPieceLength(pieceLength)
    ensures hash == Node(h, FileRow(h, data), PieceLayer(pieceLength), 0)
  {
    PieceLengthForm(pieceLength);
    hash := MerkleRoot(h, BlockHashes(h, data), pieceLength / BLOCK, ZERO);
  }

  predicate Matches(h: Hasher, data: seq<byte>, width: nat, root: Digest) {
    IsPowerOfTwo(width) && |data| <= width * BLOCK && Node(h, FileRow(h, data), TrailingZeros(width), 0) == root
  }

  method MerkleMatches(h: Hasher, data: seq<byte>, width: nat, root: Digest) returns (ok: bool)
    ensures ok == Matches(h, data, width, root)
  {
    if !IsPowerOfTwo(width) || |data| > width * BLOCK {
      return false;
    }
    var found := MerkleRoot(h, BlockHashes(h, data), width, ZERO);
    return found == root;
  }

  /** The blocks that are hashed of some data. */
  ghost function BlocksOf(data: seq<byte>): set<seq<byte>> {
    set b | b in Chunks(data, BLOCK)
  }

  /** No two of the things hashed for the tree of that height over the data collide with each other. */
  ghost predicate Apart(h: Hasher, data: seq<byte>, height: nat, seen: set<Pair>, blocks: set<seq<byte>>) {
    && NoCollision(h, seen) && NoLeafCollision(h, blocks)
    && TreePairs(h, FileRow(h, data), height) <= seen && BlocksOf(data) <= blocks
  }

  /** Only the bytes a root was made of match it. */
  lemma MatchesOnlyTheBytes(h: Hasher, data: seq<byte>, truth: seq<byte>, width: nat, root: Digest,
                            seen: set<Pair>, blocks: set<seq<byte>>)
    requires Matches(h, truth, width, root)
    requires Apart(h, truth, TrailingZeros(width), seen, blocks) && Apart(h, data, TrailingZeros(width), seen, blocks)
    ensures Matches(h, data, width, root) <==> data == truth
  {
    if Matches(h, data, width, root) {
      PowerOfTwoForm(width);
      RootInjective(h, FileRow(h, data), FileRow(h, truth), TrailingZeros(width), seen);
      SameLeaves(h, data, truth, width, blocks);
    }
  }

  lemma BlockAt(h: Hasher, data: seq<byte>, i: nat)
    requires i < CeilDiv(|data|, BLOCK)
    ensures Chunks(data, BLOCK)[i] in BlocksOf(data) && FileRow(h, data).At(i) == h.leaf(Chunks(data, BLOCK)[i])
  {
    ChunkStarts(|data|, BLOCK, i);
    assert BlockHashes(h, data)[i] == h.leaf(Chunk(data, BLOCK, i));
  }

  lemma SameLeaves(h: Hasher, a: seq<byte>, b: seq<byte>, width: nat, blocks: set<seq<byte>>)
    requires NoLeafCollision(h, blocks) && BlocksOf(a) <= blocks && BlocksOf(b) <= blocks
    requires |a| <= width * BLOCK && |b| <= width * BLOCK
    requires Window(FileRow(h, a), 0, width) == Window(FileRow(h, b), 0, width)
    ensures a == b
  {
    CeilDivBounds(|a|, BLOCK);
    CeilDivBounds(|b|, BLOCK);
    var w := Window(FileRow(h, a), 0, width);
    var n, m := CeilDiv(|a|, BLOCK), CeilDiv(|b|, BLOCK);
    if n < m {
      assert w[n] == Window(FileRow(h, b), 0, width)[n];
      BlockAt(h, b, n);
    } else if m < n {
      assert w[m] == Window(FileRow(h, b), 0, width)[m];
      BlockAt(h, a, m);
    }
    forall i | 0 <= i < n ensures Chunks(a, BLOCK)[i] == Chunks(b, BLOCK)[i] {
      assert w[i] == BlockHashes(h, a)[i] == BlockHashes(h, b)[i];
      BlockAt(h, a, i);
      BlockAt(h, b, i);
    }
    ChunksInjective(a, b, BLOCK);
  }

  datatype FileHashes = FileHashes(root: Option<Digest>, layer: seq<Digest>)

  /** Reads `length` bytes off the front of `input` and builds the file's tree; `None` for an input that ends too
      soon. */
  method HashFile(h: Hasher, input: seq<byte>, length: nat, pieceLength: nat) returns (r: Option<FileHashes>)
    requires ValidPieceLength(pieceLength)
    ensures length == 0 ==> r == Some(FileHashes(None, []))
    ensures 0 < length && |input| < length ==> r == None
    ensures 0 < length <= |input| ==>
      r == Some(FileHashes(Some(FileRoot(h, input[..length])),
                           if length <= pieceLength then [] else TrueLayer(h, input[..length], pieceLength)))
  {
    if length == 0 {
      return Some(FileHashes(None, []));
    }
    if length <= pieceLength {
      if |input| < length {
        return None;
      }
      var leaves := BlockHashes(h, input[..length]);
      NextPowerOfTwoLeast(|leaves|);
      var root := MerkleRoot(h, leaves, NextPowerOfTwo(|leaves|), ZERO);
      return Some(FileHashes(Some(root), []));
    }
    var layer := HashLayer(h, input, length, pieceLength);
    if layer == None {
      return None;
    }
    PieceLengthForm(pieceLength);
    LayerRoot(h, input[..length], pieceLength);
    var pad := ComputeZeroSubtree(h, TrailingZeros(pieceLength / BLOCK));
    var root := MerkleRoot(h, layer.value, NextPowerOfTwo(|layer.value|), pad);
    return Some(FileHashes(Some(root), layer.value));
  }

  /** The loop of `hash_file`: one piece read and hashed at a time. */
  method HashLayer(h: Hasher, input: seq<byte>, length: nat, pieceLength: nat) returns (r: Option<seq<Digest>>)
    requires ValidPieceLength(pieceLength)
    ensures r == if |input| < length then None else Some(TrueLayer(h, input[..length], pieceLength))
  {
    var layer, left := [], length;
    while left > 0
      invariant left <= length && length - left == Min(|layer| * pieceLength, length) <= |input|
      invariant |input| >= length ==> layer <= TrueLayer(h, input[..length], pieceLength)
    {
      var take, at := Min(left, pieceLength), length - left;
      if |input| - at < take {
        return None;
      }
      var hash := PieceHash(h, input[at..at + take], pieceLength);
      if |input| >= length {
        assert input[at..at + take] == input[..length][at..at + take];
        NextPiece(h, input[..length], pieceLength, layer);
      }
      Distribute(|layer|, pieceLength);
      layer := layer + [hash];
      left := left - take;
    }
    if |layer| < CeilDiv(length, pieceLength) { ChunkStarts(length, pieceLength, |layer|); }
    assert layer == TrueLayer(h, input[..length], pieceLength);
    return Some(layer);
  }

  lemma Distribute(n: nat, size: nat)
    ensures (n + 1) * size == n * size + size
  {
  }

  lemma NextPiece(h: Hasher, data: seq<byte>, pieceLength: nat, layer: seq<Digest>)
    requires ValidPieceLength(pieceLength) && layer <= TrueLayer(h, data, pieceLength)
    requires |layer| * pieceLength < |data|
    ensures layer + [Node(h, FileRow(h, Chunk(data, pieceLength, |layer|)), PieceLayer(pieceLength),
                          0)] <= TrueLayer(h, data, pieceLength)
  {
    ChunkExists(|data|, pieceLength, |layer|);
    PieceNode(h, data, pieceLength, |layer|);
  }
}
