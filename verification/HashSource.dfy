/** What a seeder answers hash requests from (`HashSource`, src/v2.rs): the piece layers for the layers at or above the
    pieces, and the pieces themselves, read on demand, for the block hashes below. */
module HashSource {
  import opened Numbers
  import opened Bytes
  import opened Merkle
  import opened HashFile
  import opened HashProofs
  import opened PiecePlan

  const MAX_HASHES_PER_REQUEST: nat := 512

  datatype SourceFile = SourceFile(length: nat, firstPiece: nat, layer: seq<Digest>)

  datatype Source = Source(pieceLength: nat, files: map<Digest, SourceFile>)

  // ---- new -------------------------------------------------------------------

  /** The layer a file is answered from: its own, or none for a file of one piece; `None` if it is missing. */
  function LayerFor(file: V2File, layers: Layers, pieceLength: nat): Option<seq<Digest>>
    requires file.root.Some?
  {
    if file.length <= pieceLength then Some([])
    else if file.root.value in layers then Some(layers[file.root.value])
    else None
  }

  function SourcesOf(files: seq<V2File>, layers: Layers, pieceLength: nat, n: nat): map<Digest, SourceFile>
    requires n <= |files| && pieceLength > 0
  {
    if n == 0 then map[]
    else
      var file, before := files[n - 1], SourcesOf(files, layers, pieceLength, n - 1);
      if file.root.None? || LayerFor(file, layers, pieceLength).None? then before
      else
        var layer := LayerFor(file, layers, pieceLength).value;
        before[file.root.value := SourceFile(file.length, FirstPiece(files, pieceLength, n - 1), layer)]
  }

  method NewSource(files: seq<V2File>, layers: Layers, pieceLength: nat) returns (r: Option<Source>)
    requires pieceLength > 0
    ensures r == var sources := SourcesOf(files, layers, pieceLength, |files|);
      if sources == map[] then None else Some(Source(pieceLength, sources))
  {
    var sources: map<Digest, SourceFile> := map[];
    var nextPiece := 0;
    for i := 0 to |files|
      invariant sources == SourcesOf(files, layers, pieceLength, i)
      invariant nextPiece == FirstPiece(files, pieceLength, i)
    {
      var file := files[i];
      if file.root.Some? {
        var layer := LayerFor(file, layers, pieceLength);
        if layer.Some? {
          sources := sources[file.root.value := SourceFile(file.length, nextPiece, layer.value)];
        }
        nextPiece := nextPiece + CeilDiv(file.length, pieceLength);
      }
    }
    r := if sources == map[] then None else Some(Source(pieceLength, sources));
  }

  /** A file that there is an entry for under `root`. */
  predicate Sourced(file: V2File, layers: Layers, pieceLength: nat, root: Digest) {
    file.root == Some(root) && LayerFor(file, layers, pieceLength).Some?
  }

  /** There is an entry under a root exactly when some file has that root and a layer to answer from. */
  lemma {:induction false} SourceKnows(files: seq<V2File>, layers: Layers, pieceLength: nat, n: nat, root: Digest)
    requires n <= |files| && pieceLength > 0
    ensures root in SourcesOf(files, layers, pieceLength, n) <==>
      exists i :: 0 <= i < n && Sourced(files[i], layers, pieceLength, root)
    decreases n
  {
    if n > 0 {
      SourceKnows(files, layers, pieceLength, n - 1, root);
      if Sourced(files[n - 1], layers, pieceLength, root) {
        assert root in SourcesOf(files, layers, pieceLength, n);
      }
    }
  }

  /** The entry under a root is that of the last such file: its length and layer, and the number of its first piece in
      the plan. */
  lemma {:induction false} SourceOfRoot(files: seq<V2File>, layers: Layers, pieceLength: nat, n: nat, root: Digest)
    returns (i: nat)
    requires n <= |files| && pieceLength > 0 && root in SourcesOf(files, layers, pieceLength, n)
    ensures i < n && Sourced(files[i], layers, pieceLength, root)
    ensures forall j :: i < j < n ==> !Sourced(files[j], layers, pieceLength, root)
    ensures SourcesOf(files, layers, pieceLength, n)[root]
         == SourceFile(files[i].length, FirstPiece(files, pieceLength, i),
                       LayerFor(files[i], layers, pieceLength).value)
    decreases n
  {
    i := n - 1;
    if !Sourced(files[n - 1], layers, pieceLength, root) {
      i := SourceOfRoot(files, layers, pieceLength, n - 1, root);
    }
  }

  // ---- the one tree ----------------------------------------------------------

  /** A range of the layer `base` of the tree over a row of leaves, with its uncles. */
  function RangeAt(h: Hasher, leaves: Row, base: nat, height: nat, index: nat, length: nat, proofLayers: nat): HashRange
    requires base <= height && length > 0
  {
    HashRange(
      seq(length, i requires 0 <= i < length => Node(h, leaves, base, index + i)),
      UnclesAt(h, leaves, base, TrailingZeros(length), index,
               UncleCount(TrailingZeros(length), proofLayers, height - base)))
  }

  function UnclesAt(h: Hasher, leaves: Row, base: nat, below: nat, index: nat, n: nat): (u: seq<Digest>)
    ensures |u| == n
  {
    seq(n, t requires 0 <= t < n => Node(h, leaves, base + below + t, Sibling(Shr(index, below + t))))
  }

  /** A range of a level is a range of the tree under it. */
  lemma RangeOfLevel(h: Hasher, leaves: Row, base: nat, level: Row, height: nat, index: nat, length: nat,
                     proofLayers: nat)
    requires base <= height && length > 0
    requires forall n: nat :: level.At(n) == Node(h, leaves, base, n)
    ensures RangeOf(h, level, height - base, index, length, proofLayers)
         == RangeAt(h, leaves, base, height, index, length, proofLayers)
  {
    var below := TrailingZeros(length);
    var n := UncleCount(below, proofLayers, height - base);
    forall t: nat | t < n
      ensures Uncles(h, level, below, index, n)[t] == UnclesAt(h, leaves, base, below, index, n)[t]
    {
      NodeAboveLevel(h, leaves, base, level, below + t, Sibling(Shr(index, below + t)));
    }
    assert Uncles(h, level, below, index, n) == UnclesAt(h, leaves, base, below, index, n);
    assert Window(level, index, length) == RangeAt(h, leaves, base, height, index, length, proofLayers).hashes;
  }

  /** A whole level of the tree over a file's true piece layer, padded, is that level of the file's own tree. */
  lemma WholeLevelIsLevel(h: Hasher, data: seq<byte>, pieceLength: nat, j: nat, above: seq<Digest>, n: nat)
    requires ValidPieceLength(pieceLength) && |data| > pieceLength
    requires PieceLayer(pieceLength) + j <= TreeHeight(|data|)
    requires IsWholeLevel(h, Row(TrueLayer(h, data, pieceLength), ZeroSubtree(h, PieceLayer(pieceLength))),
                          TreeHeight(|data|) - PieceLayer(pieceLength), j, above)
    ensures Row(above, ZeroSubtree(h, PieceLayer(pieceLength) + j)).At(n)
         == Node(h, FileRow(h, data), PieceLayer(pieceLength) + j, n)
  {
    var base, height := PieceLayer(pieceLength) + j, TreeHeight(|data|);
    if n < |above| {
      LayerNode(h, data, pieceLength, j, n);
    } else {
      BlocksWithin(|data|);
      Pow2Add(height - base, base);
      MulMono(|above|, n, Pow2(base));
      NodeOfPadding(h, FileRow(h, data), base, n);
    }
  }

  lemma BlocksWithin(length: nat)
    ensures CeilDiv(length, BLOCK) <= Pow2(TreeHeight(length))
  {
    NextPowerOfTwoLeast(CeilDiv(length, BLOCK));
    PowerOfTwoForm(NextPowerOfTwo(CeilDiv(length, BLOCK)));
  }

  lemma LayerWithin(length: nat, pieceLength: nat)
    requires ValidPieceLength(pieceLength) && length > pieceLength
    ensures PieceLayer(pieceLength) < TreeHeight(length)
    ensures 1 < CeilDiv(length, pieceLength) <= Pow2(TreeHeight(length) - PieceLayer(pieceLength))
  {
    FileHeightIsTreeHeight(length, pieceLength);
    var n := CeilDiv(length, pieceLength);
    NextPowerOfTwoLeast(n);
    PowerOfTwoForm(NextPowerOfTwo(n));
    CeilDivBounds(length, pieceLength);
    if n <= 1 { MulMono(n, 1, pieceLength); }
  }

  // ---- answer ----------------------------------------------------------------

  /** An entry that is the truth about a file of `data`. */
  predicate TrueEntry(h: Hasher, entry: SourceFile, data: seq<byte>, pieceLength: nat)
    requires ValidPieceLength(pieceLength)
  {
    && entry.length == |data| > 0
    && entry.layer == if |data| <= pieceLength then [] else TrueLayer(h, data, pieceLength)
  }

  /** A source made of layers that fit has a true entry for every file whose root is the root of its data, however often
      the torrent has that file. */
  lemma FittingSourceIsTrue(h: Hasher, files: seq<V2File>, layers: Layers, pieceLength: nat, data: seq<byte>,
                            seen: set<Pair>)
    requires ValidPieceLength(pieceLength) && LayersFit(h, files, layers, pieceLength) && |data| > 0
    requires FileRoot(h, data) in SourcesOf(files, layers, pieceLength, |files|)
    requires forall i :: 0 <= i < |files| && files[i].root == Some(FileRoot(h, data)) ==> files[i].length == |data|
    requires NoCollision(h, seen) && LayerPairs(h, TrueLayer(h, data, pieceLength), pieceLength) <= seen
    requires FileRoot(h, data) in layers ==> LayerPairs(h, layers[FileRoot(h, data)], pieceLength) <= seen
    ensures TrueEntry(h, SourcesOf(files, layers, pieceLength, |files|)[FileRoot(h, data)], data, pieceLength)
  {
    var i := SourceOfRoot(files, layers, pieceLength, |files|, FileRoot(h, data));
    if |data| > pieceLength {
      FittingLayerIsTrue(h, layers[FileRoot(h, data)], data, pieceLength, seen);
    }
  }

  lemma NoLayerIsShort(h: Hasher, file: SourceFile, data: seq<byte>, pieceLength: nat)
    requires ValidPieceLength(pieceLength) && file.layer == []
    ensures TrueEntry(h, file, data, pieceLength) ==> |data| <= pieceLength
  {
    if TrueEntry(h, file, data, pieceLength) && |data| > pieceLength {
      LayerWithin(|data|, pieceLength);
    }
  }

  /** For a file told truly, the answer is the range of the one tree over all its blocks, and there is one for every
      allowed request of the layers from the pieces up. */
  method Answer(source: Source, h: Hasher, root: Digest, base: nat, index: nat, length: nat, proofLayers: nat,
                ghost data: seq<byte>) returns (r: Option<HashRange>)
    requires ValidPieceLength(source.pieceLength)
    ensures root !in source.files ==> r == None
    ensures root in source.files && TrueEntry(h, source.files[root], data, source.pieceLength) ==>
      r == if |data| > source.pieceLength && PieceLayer(source.pieceLength) <= base && length <= MAX_HASHES_PER_REQUEST
              && Allowed(base, TreeHeight(|data|), index, length)
           then Some(RangeAt(h, FileRow(h, data), base, TreeHeight(|data|), index, length, proofLayers))
           else None
  {
    if root !in source.files {
      return None;
    }
    var file := source.files[root];
    if file.layer == [] {
      NoLayerIsShort(h, file, data, source.pieceLength);
      return None;
    }
    var height, piecesAt := FileHeight(file.length, source.pieceLength), PieceLayer(source.pieceLength);
    ghost var told := TrueEntry(h, file, data, source.pieceLength);
    if told {
      LayerWithin(|data|, source.pieceLength);
      FileHeightIsTreeHeight(|data|, source.pieceLength);
    }
    if base < piecesAt || length > MAX_HASHES_PER_REQUEST || base >= height {
      return None;
    }
    if base == piecesAt {
      r := HashRangeOf(h, file.layer, base, height, index, length, proofLayers);
      if told && Allowed(base, height, index, length) {
        AnswerFromPieces(h, data, source.pieceLength, index, length, proofLayers);
      }
      return;
    }
    var layers := UpperLayers(h, file.layer, piecesAt, height);
    var above := layers[base - piecesAt];
    r := HashRangeOf(h, above, base, height, index, length, proofLayers);
    if told && Allowed(base, height, index, length) {
      AnswerFromAbove(h, data, source.pieceLength, base - piecesAt, above, index, length, proofLayers);
    }
  }

  lemma AnswerFromPieces(h: Hasher, data: seq<byte>, pieceLength: nat, index: nat, length: nat, proofLayers: nat)
    requires ValidPieceLength(pieceLength) && |data| > pieceLength && length > 0
    requires PieceLayer(pieceLength) <= TreeHeight(|data|)
    ensures RangeOf(h, Row(TrueLayer(h, data, pieceLength), ZeroSubtree(h, PieceLayer(pieceLength))),
                    TreeHeight(|data|) - PieceLayer(pieceLength), index, length, proofLayers)
         == RangeAt(h, FileRow(h, data), PieceLayer(pieceLength), TreeHeight(|data|), index, length, proofLayers)
  {
    var level := Row(TrueLayer(h, data, pieceLength), ZeroSubtree(h, PieceLayer(pieceLength)));
    forall n: nat ensures level.At(n) == Node(h, FileRow(h, data), PieceLayer(pieceLength), n) {
      LayerIsLevel(h, data, pieceLength, n);
    }
    RangeOfLevel(h, FileRow(h, data), PieceLayer(pieceLength), level, TreeHeight(|data|), index, length, proofLayers);
  }

  lemma AnswerFromAbove(h: Hasher, data: seq<byte>, pieceLength: nat, j: nat, above: seq<Digest>, index: nat,
                        length: nat, proofLayers: nat)
    requires ValidPieceLength(pieceLength) && |data| > pieceLength && length > 0
    requires PieceLayer(pieceLength) + j <= TreeHeight(|data|)
    requires IsWholeLevel(h, Row(TrueLayer(h, data, pieceLength), ZeroSubtree(h, PieceLayer(pieceLength))),
                          TreeHeight(|data|) - PieceLayer(pieceLength), j, above)
    ensures var base := PieceLayer(pieceLength) + j;
      RangeOf(h, Row(above, ZeroSubtree(h, base)), TreeHeight(|data|) - base, index, length, proofLayers)
      == RangeAt(h, FileRow(h, data), base, TreeHeight(|data|), index, length, proofLayers)
  {
    var base := PieceLayer(pieceLength) + j;
    var level := Row(above, ZeroSubtree(h, base));
    forall n: nat ensures level.At(n) == Node(h, FileRow(h, data), base, n) {
      WholeLevelIsLevel(h, data, pieceLength, j, above, n);
    }
    RangeOfLevel(h, FileRow(h, data), base, level, TreeHeight(|data|), index, length, proofLayers);
  }

  // ---- what a peer can check -------------------------------------------------

  /** The layer `base` of a file's tree as a row. */
  function LevelRow(h: Hasher, data: seq<byte>, base: nat): Row
    requires base <= TreeHeight(|data|)
  {
    Row(seq(Pow2(TreeHeight(|data|) - base), i requires 0 <= i => Node(h, FileRow(h, data), base, i)),
        ZeroSubtree(h, base))
  }

  lemma LevelRowAt(h: Hasher, data: seq<byte>, base: nat, n: nat)
    requires base <= TreeHeight(|data|)
    ensures LevelRow(h, data, base).At(n) == Node(h, FileRow(h, data), base, n)
  {
    var height := TreeHeight(|data|);
    if n >= Pow2(height - base) {
      BlocksWithin(|data|);
      Pow2Add(height - base, base);
      MulMono(Pow2(height - base), n, Pow2(base));
      NodeOfPadding(h, FileRow(h, data), base, n);
    }
  }

  /** An answer is the range of a file's tree. */
  predicate IsRangeAt(h: Hasher, data: seq<byte>, base: nat, index: nat, hashes: seq<Digest>, uncles: seq<Digest>,
                      proofLayers: nat)
    requires base <= TreeHeight(|data|)
  {
    && hashes != []
    && HashRange(hashes, uncles) == RangeAt(h, FileRow(h, data), base, TreeHeight(|data|), index, |hashes|, proofLayers)
  }

  /** Against a file's true root, on every layer of its tree, `verify_range` accepts one answer to a request: the range
      of that tree; and it accepts that one exactly when the proof reaches the root. */
  lemma FileRangesVerify(h: Hasher, data: seq<byte>, base: nat, index: nat, hashes: seq<Digest>, uncles: seq<Digest>,
                         proofLayers: nat, seen: set<Pair>)
    requires base < TreeHeight(|data|)
    ensures
      && Allowed(base, TreeHeight(|data|), index, |hashes|)
      && IsRangeAt(h, data, base, index, hashes, uncles, proofLayers) ==>
        var ok := Accepts(h, FileRoot(h, data), base, TreeHeight(|data|), index, hashes, uncles, proofLayers);
        ok <==> Reaches(TreeHeight(|data|) - base, |hashes|, proofLayers)
    ensures
      && Trusted(h, LevelRow(h, data, base), TreeHeight(|data|) - base, index, HashRange(hashes, uncles), proofLayers,
                 seen)
      && Accepts(h, FileRoot(h, data), base, TreeHeight(|data|), index, hashes, uncles, proofLayers) ==>
        && Allowed(base, TreeHeight(|data|), index, |hashes|)
        && IsRangeAt(h, data, base, index, hashes, uncles, proofLayers)
  {
    var level, height := LevelRow(h, data, base), TreeHeight(|data|);
    forall n: nat ensures level.At(n) == Node(h, FileRow(h, data), base, n) {
      LevelRowAt(h, data, base, n);
    }
    NodeAboveLevel(h, FileRow(h, data), base, level, height - base, 0);
    if Allowed(base, height, index, |hashes|) {
      RangeOfLevel(h, FileRow(h, data), base, level, height, index, |hashes|, proofLayers);
      TrueRangeAccepted(h, level, base, height, index, |hashes|, proofLayers);
      if Trusted(h, level, height - base, index, HashRange(hashes, uncles), proofLayers, seen) {
        AcceptedExactly(h, level, base, height, index, hashes, uncles, proofLayers, seen);
      }
    }
  }

  // ---- answer_leaves ---------------------------------------------------------

  /** A reader: what the call number `n` is answered with for a piece. A piece may be there for one call and not for the
      next. */
  type Reader = (nat, nat) -> Option<seq<byte>>

  function ReadPiece(read: Reader, n: nat, firstPiece: nat, q: nat): Option<seq<byte>> {
    read(n, firstPiece + q)
  }

  /** Every piece of the file that is read at all is read right. */
  ghost predicate ReadsTrue(read: Reader, firstPiece: nat, data: seq<byte>, pieceLength: nat)
    requires pieceLength > 0
  {
    forall n: nat, q: nat ::
      q * pieceLength < |data| && ReadPiece(read, n, firstPiece, q).Some? ==>
        ReadPiece(read, n, firstPiece, q).value == Chunk(data, pieceLength, q)
  }

  /** Every piece of the file numbered from `lo` to `hi` can be read, at any time. */
  ghost predicate Readable(read: Reader, firstPiece: nat, data: seq<byte>, pieceLength: nat, lo: nat, hi: nat) {
    forall n: nat, q: nat :: lo <= q <= hi && q * pieceLength < |data| ==> ReadPiece(read, n, firstPiece, q).Some?
  }

  /** The one piece whose block hashes are kept, and how many reads have been made. */
  datatype Cache = Cache(held: Option<(nat, seq<Digest>)>, count: nat)

  ghost predicate CacheTrue(h: Hasher, data: seq<byte>, pieceLength: nat, cache: Cache)
    requires pieceLength > 0
  {
    cache.held.Some? ==>
      && cache.held.value.0 * pieceLength < |data|
      && cache.held.value.1 == BlockHashes(h, Chunk(data, pieceLength, cache.held.value.0))
  }

  /** The truth a request is answered against: the entry, the reader and the cache are all true of `data`. */
  ghost predicate Honest(h: Hasher, file: SourceFile, pieceLength: nat, read: Reader, cache: Cache, data: seq<byte>)
    requires ValidPieceLength(pieceLength)
  {
    && TrueEntry(h, file, data, pieceLength)
    && ReadsTrue(read, file.firstPiece, data, pieceLength)
    && CacheTrue(h, data, pieceLength, cache)
  }

  lemma BlockInPiece(h: Hasher, data: seq<byte>, w: nat, q: nat, t: nat)
    requires t < w && q * w + t < CeilDiv(|data|, BLOCK) && w * BLOCK > 0
    ensures q * (w * BLOCK) < |data|
    ensures t < CeilDiv(|Chunk(data, w * BLOCK, q)|, BLOCK)
    ensures BlockHashes(h, Chunk(data, w * BLOCK, q))[t] == FileRow(h, data).At(q * w + t)
  {
    ChunkStarts(|data|, BLOCK, q * w + t);
    ChunkPlaces(BLOCK, w, q, t);
    PieceLeaf(h, data, w, q, t);
    ChunkExists(|Chunk(data, w * BLOCK, q)|, BLOCK, t);
  }

  lemma PieceOfBlock(pieceLength: nat, block: nat)
    requires ValidPieceLength(pieceLength)
    ensures var w := pieceLength / BLOCK;
      && w > 0 && pieceLength == w * BLOCK
      && block / w == Shr(block, PieceLayer(pieceLength))
      && block == block / w * w + block % w
  {
    PieceLengthForm(pieceLength);
    ShrIsDiv(block, PieceLayer(pieceLength));
    DivMod(block, pieceLength / BLOCK);
  }

  lemma DivMod(n: nat, w: nat)
    requires w > 0
    ensures n == n / w * w + n % w
  {
  }

  /** The hash of one block: from the piece held, or one read now and held from then on, or the padding. */
  method Leaf(h: Hasher, file: SourceFile, pieceLength: nat, block: nat, read: Reader, cache: Cache,
              ghost data: seq<byte>)
    returns (hash: Option<Digest>, cache': Cache)
    requires ValidPieceLength(pieceLength)
    ensures Honest(h, file, pieceLength, read, cache, data) ==>
      && Honest(h, file, pieceLength, read, cache', data)
      && (hash.Some? ==> hash.value == FileRow(h, data).At(block))
      && (hash.None? ==> !Readable(read, file.firstPiece, data, pieceLength, Shr(block, PieceLayer(pieceLength)),
                                   Shr(block, PieceLayer(pieceLength))))
  {
    cache' := cache;
    if block >= CeilDiv(file.length, BLOCK) {
      return Some(ZERO), cache;
    }
    PieceOfBlock(pieceLength, block);
    var w := pieceLength / BLOCK;
    var piece, place := block / w, block % w;
    if Honest(h, file, pieceLength, read, cache, data) {
      BlockInPiece(h, data, w, piece, place);
    }
    if cache.held.None? || cache.held.value.0 != piece {
      var bytes := ReadPiece(read, cache.count, file.firstPiece, piece);
      if bytes.None? {
        return None, cache.(count := cache.count + 1);
      }
      cache' := Cache(Some((piece, BlockHashes(h, bytes.value))), cache.count + 1);
    }
    var held := cache'.held.value.1;
    hash := if place < |held| then Some(held[place]) else None;
  }

  lemma ShrIsDiv(n: nat, k: nat)
    ensures Shr(n, k) == n / Pow2(k)
  {
    ShrBounds(n, k);
    DivisionForm(n, Pow2(k), Shr(n, k), n - Shr(n, k) * Pow2(k));
  }

  /** A run of blocks, all of them in the pieces from `lo` to `hi`. */
  ghost predicate BlocksIn(from: nat, n: nat, k: nat, lo: nat, hi: nat) {
    forall b: nat :: from <= b < from + n ==> lo <= Shr(b, k) <= hi
  }

  method Leaves(h: Hasher, file: SourceFile, pieceLength: nat, from: nat, n: nat, read: Reader, cache: Cache,
                ghost data: seq<byte>, ghost lo: nat, ghost hi: nat)
    returns (hashes: Option<seq<Digest>>, cache': Cache)
    requires ValidPieceLength(pieceLength)
    ensures hashes.Some? ==> |hashes.value| == n
    ensures Honest(h, file, pieceLength, read, cache, data) ==>
      && Honest(h, file, pieceLength, read, cache', data)
      && (hashes.Some? ==> hashes.value == Window(FileRow(h, data), from, n))
      && (hashes.None? && BlocksIn(from, n, PieceLayer(pieceLength), lo, hi) ==>
            !Readable(read, file.firstPiece, data, pieceLength, lo, hi))
  {
    var found := [];
    cache' := cache;
    while |found| < n
      invariant |found| <= n
      invariant Honest(h, file, pieceLength, read, cache, data) ==>
        Honest(h, file, pieceLength, read, cache', data) && found == Window(FileRow(h, data), from, n)[..|found|]
    {
      var hash;
      hash, cache' := Leaf(h, file, pieceLength, from + |found|, read, cache', data);
      if hash.None? {
        return None, cache';
      }
      found := found + [hash.value];
    }
    return Some(found), cache';
  }

  /** Which requests for block hashes are allowed. */
  predicate LeafAllowed(height: nat, index: nat, length: nat) {
    length <= MAX_HASHES_PER_REQUEST && Allowed(0, height, index, length)
  }

  /** That is: all the blocks under one node of a layer above, at most 512 of them. */
  lemma LeafAllowedExactly(height: nat, index: nat, length: nat)
    ensures LeafAllowed(height, index, length)
       <==> length <= 512 && exists k: nat, q: nat :: UnderNode(0, height, index, length, k, q)
  {
    AllowedExactly(0, height, index, length);
  }

  /** The blocks under the sibling of an ancestor below the pieces are in the same piece. */
  lemma SiblingBlocks(index: nat, j: nat, k: nat)
    requires j < k
    ensures BlocksIn(Sibling(Shr(index, j)) * Pow2(j), Pow2(j), k, Shr(index, k), Shr(index, k))
  {
    var s := Sibling(Shr(index, j));
    forall b: nat | s * Pow2(j) <= b < s * Pow2(j) + Pow2(j) ensures Shr(b, k) == Shr(index, k) {
      ShrIs(b, j, s);
      SiblingBlock(index, j, k, b);
    }
  }

  lemma SiblingBlock(index: nat, j: nat, k: nat, b: nat)
    requires j < k && Shr(b, j) == Sibling(Shr(index, j))
    ensures Shr(b, k) == Shr(index, k)
  {
    ShrHalf(b, j);
    ShrHalf(index, j);
    ShrAgree(b, index, j + 1, k);
  }

  lemma ShrHalf(n: nat, j: nat)
    ensures Shr(n, j + 1) == Shr(n, j) / 2
  {
    ShrShr(n, j, 1);
    assert Shr(Shr(n, j), 1) == Shr(Shr(n, j) / 2, 0);
  }

  lemma ShrAgree(a: nat, b: nat, j: nat, k: nat)
    requires j <= k && Shr(a, j) == Shr(b, j)
    ensures Shr(a, k) == Shr(b, k)
  {
    ShrShr(a, j, k - j);
    ShrShr(b, j, k - j);
  }

  lemma ShrIs(b: nat, j: nat, s: nat)
    requires s * Pow2(j) <= b < s * Pow2(j) + Pow2(j)
    ensures Shr(b, j) == s
  {
    ShrBounds(b, j);
    if Shr(b, j) < s {
      MulMono(Shr(b, j), s, Pow2(j));
    } else if s < Shr(b, j) {
      MulMono(s, Shr(b, j), Pow2(j));
    }
  }

  lemma {:induction false} ShrMonotone(a: nat, b: nat, k: nat)
    requires a <= b
    ensures Shr(a, k) <= Shr(b, k)
  {
    if k > 0 { ShrMonotone(a / 2, b / 2, k - 1); }
  }

  lemma SingleHeight(length: nat, pieceLength: nat)
    requires ValidPieceLength(pieceLength) && length <= pieceLength
    ensures TreeHeight(length) <= PieceLayer(pieceLength)
  {
    var k, n := PieceLayer(pieceLength), CeilDiv(length, BLOCK);
    PieceLengthForm(pieceLength);
    BlocksAtMost(length, Pow2(k));
    HeightWithin(n, k);
  }

  lemma BlocksAtMost(length: nat, n: nat)
    requires length <= n * BLOCK
    ensures CeilDiv(length, BLOCK) <= n
  {
    CeilDivBounds(length, BLOCK);
  }

  lemma HeightWithin(n: nat, k: nat)
    requires n <= Pow2(k)
    ensures NextPowerOfTwo(n) > 0 && TrailingZeros(NextPowerOfTwo(n)) <= k
  {
    NextPowerOfTwoLeast(n);
    PowerOfTwoForm(NextPowerOfTwo(n));
    var j := TrailingZeros(NextPowerOfTwo(n));
    if j > k {
      Pow2Monotone(k, j);
    }
  }

  /** The pieces a request touches, counted in the file: those of its own blocks. */
  function FirstTouched(index: nat, pieceLength: nat): nat
    requires ValidPieceLength(pieceLength)
  {
    Shr(index, PieceLayer(pieceLength))
  }

  function LastTouched(index: nat, length: nat, pieceLength: nat): nat
    requires ValidPieceLength(pieceLength) && length > 0
  {
    Shr(index + length - 1, PieceLayer(pieceLength))
  }

  /** The levels from the pieces up to the root, over a piece layer. */
  ghost predicate PiecesTree(h: Hasher, layer: seq<Digest>, pieceLength: nat, height: nat, tree: seq<seq<Digest>>)
    requires ValidPieceLength(pieceLength)
  {
    var k := PieceLayer(pieceLength);
    k <= height && |tree| == height - k + 1 && AreLevels(h, Row(layer, ZeroSubtree(h, k)), height - k, tree)
  }

  /** All that an answer is made of is true to the file. */
  ghost predicate ToldTruly(h: Hasher, file: SourceFile, pieceLength: nat, read: Reader, cache: Cache, data: seq<byte>,
                            height: nat, tree: Option<seq<seq<Digest>>>)
    requires ValidPieceLength(pieceLength)
  {
    && Honest(h, file, pieceLength, read, cache, data)
    && height == TreeHeight(|data|) && (tree.Some? <==> file.layer != [])
  }

  lemma UncleAbove(h: Hasher, file: SourceFile, pieceLength: nat, tree: seq<seq<Digest>>, height: nat, j: nat,
                   sibling: nat, data: seq<byte>)
    requires ValidPieceLength(pieceLength) && PieceLayer(pieceLength) <= j < height && sibling < Pow2(height - j)
    requires PiecesTree(h, file.layer, pieceLength, height, tree)
    ensures sibling < |tree[j - PieceLayer(pieceLength)]|
    ensures TrueEntry(h, file, data, pieceLength) && file.layer != [] ==>
      tree[j - PieceLayer(pieceLength)][sibling] == Node(h, FileRow(h, data), j, sibling)
  {
    var k := PieceLayer(pieceLength);
    assert IsWholeLevel(h, Row(file.layer, ZeroSubtree(h, k)), height - k, j - k, tree[j - k]);
    if TrueEntry(h, file, data, pieceLength) && file.layer != [] {
      LayerNode(h, data, pieceLength, j - k, sibling);
    }
  }

  /** The uncle in layer `j`: from the tree over the pieces at or above them, from the blocks below them. */
  method Uncle(h: Hasher, file: SourceFile, pieceLength: nat, tree: Option<seq<seq<Digest>>>, height: nat,
               index: nat, j: nat, read: Reader, cache: Cache, ghost data: seq<byte>)
    returns (uncle: Option<Digest>, cache': Cache)
    requires ValidPieceLength(pieceLength) && j < height && index < Pow2(height)
    requires tree.Some? ==> PiecesTree(h, file.layer, pieceLength, height, tree.value)
    ensures ToldTruly(h, file, pieceLength, read, cache, data, height, tree) ==>
      && Honest(h, file, pieceLength, read, cache', data)
      && (uncle.Some? ==> uncle.value == Node(h, FileRow(h, data), j, Sibling(Shr(index, j))))
      && (uncle.None? ==> !Readable(read, file.firstPiece, data, pieceLength, Shr(index, PieceLayer(pieceLength)),
                                    Shr(index, PieceLayer(pieceLength))))
  {
    var k, sibling := PieceLayer(pieceLength), Sibling(Shr(index, j));
    SiblingWithin(index, height, j);
    if tree.Some? && j >= k {
      UncleAbove(h, file, pieceLength, tree.value, height, j, sibling, data);
      return Some(tree.value[j - k][sibling]), cache;
    }
    ghost var own := Shr(index, k);
    if ToldTruly(h, file, pieceLength, read, cache, data, height, tree) {
      UncleBlocks(file.length, pieceLength, tree.Some?, height, index, j);
    }
    var leaves;
    leaves, cache' := Leaves(h, file, pieceLength, sibling * Pow2(j), Pow2(j), read, cache, data, own, own);
    if leaves.None? {
      return None, cache';
    }
    Pow2IsPowerOfTwo(j);
    var root := MerkleRoot(h, leaves.value, |leaves.value|, ZERO);
    NodeOfRange(h, FileRow(h, data), leaves.value, j, sibling);
    return Some(root), cache';
  }

  lemma UncleBlocks(length: nat, pieceLength: nat, tree: bool, height: nat, index: nat, j: nat)
    requires ValidPieceLength(pieceLength) && j < height && index < Pow2(height)
    requires tree ==> j < PieceLayer(pieceLength)
    requires !tree ==> length <= pieceLength && height == TreeHeight(length)
    ensures BlocksIn(Sibling(Shr(index, j)) * Pow2(j), Pow2(j), PieceLayer(pieceLength),
                     Shr(index, PieceLayer(pieceLength)), Shr(index, PieceLayer(pieceLength)))
  {
    if !tree { SingleHeight(length, pieceLength); }
    SiblingBlocks(index, j, PieceLayer(pieceLength));
  }

  lemma TouchedBlocks(index: nat, length: nat, pieceLength: nat)
    requires ValidPieceLength(pieceLength) && length > 0
    ensures BlocksIn(index, length, PieceLayer(pieceLength), FirstTouched(index, pieceLength),
                     LastTouched(index, length, pieceLength))
    ensures FirstTouched(index, pieceLength) <= LastTouched(index, length, pieceLength)
  {
    var k := PieceLayer(pieceLength);
    ShrMonotone(index, index + length - 1, k);
    forall b: nat | index <= b < index + length ensures Shr(index, k) <= Shr(b, k) <= Shr(index + length - 1, k) {
      ShrMonotone(index, b, k);
      ShrMonotone(b, index + length - 1, k);
    }
  }

  /** For a file told truly and a reader that reads right, whatever is answered is the range over the whole row of block
      hashes, and every allowed request is answered unless one of the pieces it touches cannot be read. */
  method AnswerLeaves(source: Source, h: Hasher, root: Digest, index: nat, length: nat, proofLayers: nat, read: Reader,
                      ghost data: seq<byte>) returns (r: Option<HashRange>)
    requires ValidPieceLength(source.pieceLength)
    ensures root !in source.files ==> r == None
    ensures
      && root in source.files && TrueEntry(h, source.files[root], data, source.pieceLength)
      && ReadsTrue(read, source.files[root].firstPiece, data, source.pieceLength) ==>
        && (r.Some? ==>
          && LeafAllowed(TreeHeight(|data|), index, length)
          && r.value == RangeOf(h, FileRow(h, data), TreeHeight(|data|), index, length, proofLayers))
        && (r.None? && LeafAllowed(TreeHeight(|data|), index, length) ==>
          !Readable(read, source.files[root].firstPiece, data, source.pieceLength,
                    FirstTouched(index, source.pieceLength), LastTouched(index, length, source.pieceLength)))
  {
    if root !in source.files {
      return None;
    }
    var file, pieceLength := source.files[root], source.pieceLength;
    var single := file.layer == [];
    var height := if single then TreeHeight(file.length) else FileHeight(file.length, pieceLength);
    ghost var told := TrueEntry(h, file, data, pieceLength) && ReadsTrue(read, file.firstPiece, data, pieceLength);
    if told && |data| > pieceLength {
      LayerWithin(|data|, pieceLength);
      FileHeightIsTreeHeight(|data|, pieceLength);
    }
    assert told ==> height == TreeHeight(|data|);
    if !LeafAllowed(height, index, length) {
      return None;
    }
    TouchedBlocks(index, length, pieceLength);
    ghost var lo, hi := FirstTouched(index, pieceLength), LastTouched(index, length, pieceLength);
    var hashes, cache := Leaves(h, file, pieceLength, index, length, read, Cache(None, 0), data, lo, hi);
    if hashes.None? {
      return None;
    }
    var tree: Option<seq<seq<Digest>>> := None;
    if !single {
      var layers := UpperLayers(h, file.layer, PieceLayer(pieceLength), height);
      tree := Some(layers);
    }
    var uncles;
    uncles, cache := CollectUncles(h, file, pieceLength, tree, height, index, TrailingZeros(length), proofLayers, read,
                                   cache, data, lo, hi);
    if uncles.None? {
      return None;
    }
    return Some(HashRange(hashes.value, uncles.value));
  }

  method CollectUncles(h: Hasher, file: SourceFile, pieceLength: nat, tree: Option<seq<seq<Digest>>>, height: nat,
                       index: nat, below: nat, proofLayers: nat, read: Reader, cache: Cache, ghost data: seq<byte>,
                       ghost lo: nat, ghost hi: nat)
    returns (uncles: Option<seq<Digest>>, cache': Cache)
    requires ValidPieceLength(pieceLength) && index < Pow2(height) && lo <= Shr(index, PieceLayer(pieceLength)) <= hi
    requires tree.Some? ==> PiecesTree(h, file.layer, pieceLength, height, tree.value)
    ensures ToldTruly(h, file, pieceLength, read, cache, data, height, tree) ==>
      && (uncles.Some? ==>
            uncles.value == Uncles(h, FileRow(h, data), below, index, UncleCount(below, proofLayers, height)))
      && (uncles.None? ==> !Readable(read, file.firstPiece, data, pieceLength, lo, hi))
  {
    ghost var told := ToldTruly(h, file, pieceLength, read, cache, data, height, tree);
    ghost var wanted := Uncles(h, FileRow(h, data), below, index, UncleCount(below, proofLayers, height));
    var found, j := [], below;
    cache' := cache;
    while j <= proofLayers && j < height
      invariant j == below + |found| && |found| <= |wanted|
      invariant told ==> Honest(h, file, pieceLength, read, cache', data) && found == wanted[..|found|]
    {
      var uncle;
      uncle, cache' := Uncle(h, file, pieceLength, tree, height, index, j, read, cache', data);
      if uncle.None? {
        return None, cache';
      }
      found := found + [uncle.value];
      j := j + 1;
    }
    return Some(found), cache';
  }
}
