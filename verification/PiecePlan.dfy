/** The pieces of a v2 torrent (src/v2.rs, src/torrent.rs): the layers a torrent carries are checked against the files'
    roots, and every piece is given what it must hash to. */
module PiecePlan {
  import opened Numbers
  import opened Bytes
  import opened Merkle
  import opened HashFile

  datatype V2File = V2File(path: seq<seq<byte>>, length: nat, root: Option<Digest>)

  datatype V2Piece = V2Piece(file: nat, offset: nat, length: nat, root: Digest, width: nat)

  type Layers = map<Digest, seq<Digest>>

  datatype V2Error = BadPieceLength | BadLayer

  // ---- validate_layers -------------------------------------------------------

  /** The root a piece layer comes to. */
  function LayerTop(h: Hasher, layer: seq<Digest>, pieceLength: nat): Digest
    requires ValidPieceLength(pieceLength)
  {
    NextPowerOfTwoLeast(|layer|);
    Node(h, Row(layer, ZeroSubtree(h, PieceLayer(pieceLength))), TrailingZeros(NextPowerOfTwo(|layer|)), 0)
  }

  predicate LayerFits(h: Hasher, layer: seq<Digest>, length: nat, root: Digest, pieceLength: nat)
    requires ValidPieceLength(pieceLength)
  {
    |layer| == CeilDiv(length, pieceLength) && LayerTop(h, layer, pieceLength) == root
  }

  predicate HasLayer(file: V2File, layers: Layers) {
    file.root.Some? && file.root.value in layers
  }

  predicate LayersFit(h: Hasher, files: seq<V2File>, layers: Layers, pieceLength: nat)
    requires ValidPieceLength(pieceLength)
  {
    forall i :: 0 <= i < |files| && files[i].length > pieceLength && HasLayer(files[i], layers) ==>
      LayerFits(h, layers[files[i].root.value], files[i].length, files[i].root.value, pieceLength)
  }

  method ValidateLayers(h: Hasher, files: seq<V2File>, layers: Layers, pieceLength: int)
    returns (error: Option<V2Error>)
    ensures error ==
      if !ValidPieceLength(pieceLength) then Some(BadPieceLength)
      else if LayersFit(h, files, layers, pieceLength) then None
      else Some(BadLayer)
  {
    if !ValidPieceLength(pieceLength) {
      return Some(BadPieceLength);
    }
    PieceLengthForm(pieceLength);
    for i := 0 to |files|
      invariant LayersFit(h, files[..i], layers, pieceLength)
    {
      var file := files[i];
      if file.length > pieceLength && HasLayer(file, layers) {
        var root, layer := file.root.value, layers[file.root.value];
        if |layer| != CeilDiv(file.length, pieceLength) {
          return Some(BadLayer);
        }
        NextPowerOfTwoLeast(|layer|);
        var pad := ComputeZeroSubtree(h, TrailingZeros(pieceLength / BLOCK));
        var top := MerkleRoot(h, layer, NextPowerOfTwo(|layer|), pad);
        if top != root {
          return Some(BadLayer);
        }
      }
    }
    assert files[..|files|] == files;
    return None;
  }

  /** The pairs that are hashed to check a layer. */
  ghost function LayerPairs(h: Hasher, layer: seq<Digest>, pieceLength: nat): set<Pair>
    requires ValidPieceLength(pieceLength)
  {
    NextPowerOfTwoLeast(|layer|);
    TreePairs(h, Row(layer, ZeroSubtree(h, PieceLayer(pieceLength))), TrailingZeros(NextPowerOfTwo(|layer|)))
  }

  /** One file, one root: only one layer can pass. */
  lemma FittingLayerUnique(h: Hasher, a: seq<Digest>, b: seq<Digest>, length: nat, root: Digest, pieceLength: nat,
                           seen: set<Pair>)
    requires ValidPieceLength(pieceLength)
    requires LayerFits(h, a, length, root, pieceLength) && LayerFits(h, b, length, root, pieceLength)
    requires NoCollision(h, seen) && LayerPairs(h, a, pieceLength) <= seen && LayerPairs(h, b, pieceLength) <= seen
    ensures a == b
  {
    var n, pad := |a|, ZeroSubtree(h, PieceLayer(pieceLength));
    NextPowerOfTwoLeast(n);
    PowerOfTwoForm(NextPowerOfTwo(n));
    var k := TrailingZeros(NextPowerOfTwo(n));
    RootInjective(h, Row(a, pad), Row(b, pad), k, seen);
    forall i | 0 <= i < n ensures a[i] == b[i] {
      assert Window(Row(a, pad), 0, Pow2(k))[i] == Window(Row(b, pad), 0, Pow2(k))[i];
    }
  }

  /** A layer that passes for a file whose root is the true root of its data is that file's true piece layer. */
  lemma FittingLayerIsTrue(h: Hasher, layer: seq<Digest>, data: seq<byte>, pieceLength: nat, seen: set<Pair>)
    requires ValidPieceLength(pieceLength) && |data| > pieceLength && NoCollision(h, seen)
    requires LayerPairs(h, layer, pieceLength) <= seen
    requires LayerPairs(h, TrueLayer(h, data, pieceLength), pieceLength) <= seen
    ensures LayerFits(h, layer, |data|, FileRoot(h, data), pieceLength) <==> layer == TrueLayer(h, data, pieceLength)
  {
    LayerRoot(h, data, pieceLength);
    if LayerFits(h, layer, |data|, FileRoot(h, data), pieceLength) {
      FittingLayerUnique(h, layer, TrueLayer(h, data, pieceLength), |data|, FileRoot(h, data), pieceLength, seen);
    }
  }

  // ---- plan_pieces -----------------------------------------------------------

  /** A file that can be planned: empty, of one piece, or with a layer. */
  predicate CanPlan(file: V2File, layers: Layers, pieceLength: nat) {
    file.root.None? || file.length <= pieceLength || file.root.value in layers
  }

  /** What the parser and the layer check have made sure of: a root for a file with bytes and no other, and one hash
      per piece. */
  predicate Checked(file: V2File, layers: Layers, pieceLength: nat)
    requires pieceLength > 0
  {
    && (file.root.Some? <==> file.length > 0)
    && (file.length > pieceLength && HasLayer(file, layers) ==>
          |layers[file.root.value]| == CeilDiv(file.length, pieceLength))
  }

  predicate AllChecked(files: seq<V2File>, layers: Layers, pieceLength: nat)
    requires pieceLength > 0
  {
    forall i :: 0 <= i < |files| ==> Checked(files[i], layers, pieceLength)
  }

  predicate AllPlannable(files: seq<V2File>, layers: Layers, pieceLength: nat) {
    forall i :: 0 <= i < |files| ==> CanPlan(files[i], layers, pieceLength)
  }

  /** Unsigned subtraction, which wraps. */
  function WrapSub(a: nat, b: nat): nat {
    if b <= a then a - b else (a - b) % U64
  }

  function LayerPiece(index: nat, file: V2File, hash: Digest, n: nat, pieceLength: nat): V2Piece {
    V2Piece(index, n * pieceLength, Min(WrapSub(file.length, n * pieceLength), pieceLength), hash, pieceLength / BLOCK)
  }

  /** The pieces of one file. */
  function FilePieces(index: nat, file: V2File, layers: Layers, pieceLength: nat): seq<V2Piece>
    requires CanPlan(file, layers, pieceLength)
  {
    if file.root.None? then []
    else if file.length <= pieceLength then
      [V2Piece(index, 0, file.length, file.root.value, NextPowerOfTwo(CeilDiv(file.length, BLOCK)))]
    else
      LongFilePieces(index, file, layers[file.root.value], pieceLength)
  }

  function LongFilePieces(index: nat, file: V2File, layer: seq<Digest>, pieceLength: nat): seq<V2Piece> {
    seq(|layer|, n requires 0 <= n < |layer| => LayerPiece(index, file, layer[n], n, pieceLength))
  }

  /** The pieces of the first `n` files. */
  function PlanOf(files: seq<V2File>, layers: Layers, pieceLength: nat, n: nat): seq<V2Piece>
    requires n <= |files| && AllPlannable(files[..n], layers, pieceLength)
  {
    if n == 0 then []
    else
      assert files[..n][n - 1] == files[n - 1] && files[..n - 1] == files[..n][..n - 1];
      PlanOf(files, layers, pieceLength, n - 1) + FilePieces(n - 1, files[n - 1], layers, pieceLength)
  }

  method PlanPieces(files: seq<V2File>, layers: Layers, pieceLength: nat) returns (r: Option<seq<V2Piece>>)
    ensures r.Some? <==> AllPlannable(files, layers, pieceLength)
    ensures r.Some? ==>
      AllPlannable(files[..|files|], layers, pieceLength) && r.value == PlanOf(files, layers, pieceLength, |files|)
  {
    var pieces := [];
    for index := 0 to |files|
      invariant AllPlannable(files[..index], layers, pieceLength)
      invariant pieces == PlanOf(files, layers, pieceLength, index)
    {
      var file := files[index];
      if !CanPlan(file, layers, pieceLength) {
        return None;
      }
      assert files[..index + 1] == files[..index] + [file];
      assert AllPlannable(files[..index + 1], layers, pieceLength);
      if file.root.Some? {
        if file.length <= pieceLength {
          pieces := pieces + [V2Piece(index, 0, file.length, file.root.value,
                                      NextPowerOfTwo(CeilDiv(file.length, BLOCK)))];
        } else {
          pieces := PushLayer(pieces, index, file, layers[file.root.value], pieceLength);
        }
      }
    }
    assert files[..|files|] == files;
    return Some(pieces);
  }

  method PushLayer(before: seq<V2Piece>, index: nat, file: V2File, layer: seq<Digest>, pieceLength: nat)
    returns (pieces: seq<V2Piece>)
    ensures pieces == before + LongFilePieces(index, file, layer, pieceLength)
  {
    pieces := before;
    for n := 0 to |layer|
      invariant pieces == before + LongFilePieces(index, file, layer, pieceLength)[..n]
    {
      pieces := pieces + [LayerPiece(index, file, layer[n], n, pieceLength)];
    }
  }

  /** The number of the first piece of file `n`, counting the pieces each file before it needs. */
  function FirstPiece(files: seq<V2File>, pieceLength: nat, n: nat): nat
    requires n <= |files| && pieceLength > 0
  {
    if n == 0 then 0
    else FirstPiece(files, pieceLength, n - 1) + PieceCount(files[n - 1], pieceLength)
  }

  lemma OnePiece(length: nat, pieceLength: nat)
    requires 0 < length <= pieceLength
    ensures CeilDiv(length, pieceLength) == 1
  {
    CeilDivUnique(length, pieceLength, 1);
  }

  function PieceCount(file: V2File, pieceLength: nat): nat
    requires pieceLength > 0
  {
    if file.root.None? then 0 else CeilDiv(file.length, pieceLength)
  }

  lemma FilePiecesCount(index: nat, file: V2File, layers: Layers, pieceLength: nat)
    requires pieceLength > 0 && CanPlan(file, layers, pieceLength) && Checked(file, layers, pieceLength)
    ensures |FilePieces(index, file, layers, pieceLength)| == PieceCount(file, pieceLength)
  {
    if file.root.Some? && file.length <= pieceLength { OnePiece(file.length, pieceLength); }
  }

  lemma PlannablePrefix(files: seq<V2File>, layers: Layers, pieceLength: nat, n: nat)
    requires 0 < n <= |files| && AllPlannable(files[..n], layers, pieceLength)
    ensures AllPlannable(files[..n - 1], layers, pieceLength) && CanPlan(files[n - 1], layers, pieceLength)
  {
    assert files[..n][n - 1] == files[n - 1] && files[..n - 1] == files[..n][..n - 1];
  }

  lemma {:induction false} PlanLength(files: seq<V2File>, layers: Layers, pieceLength: nat, n: nat)
    requires n <= |files| && pieceLength > 0
    requires AllPlannable(files[..n], layers, pieceLength) && AllChecked(files, layers, pieceLength)
    ensures |PlanOf(files, layers, pieceLength, n)| == FirstPiece(files, pieceLength, n)
  {
    if n > 0 {
      PlannablePrefix(files, layers, pieceLength, n);
      PlanLength(files, layers, pieceLength, n - 1);
      FilePiecesCount(n - 1, files[n - 1], layers, pieceLength);
    }
  }

  /** The plan holds each file's pieces, and nothing else, where the piece numbering says they are. */
  lemma {:induction false} PlanHolds(files: seq<V2File>, layers: Layers, pieceLength: nat, n: nat, i: nat)
    requires i < n <= |files| && pieceLength > 0
    requires AllPlannable(files[..n], layers, pieceLength) && AllChecked(files, layers, pieceLength)
    ensures CanPlan(files[i], layers, pieceLength)
    ensures FirstPiece(files, pieceLength, i) <= FirstPiece(files, pieceLength, i + 1)
    ensures FirstPiece(files, pieceLength, i + 1) <= |PlanOf(files, layers, pieceLength, n)|
    ensures PlanOf(files, layers, pieceLength,
                   n)[FirstPiece(files, pieceLength, i)..FirstPiece(files, pieceLength, i + 1)]
         == FilePieces(i, files[i], layers, pieceLength)
    decreases n
  {
    PlannablePrefix(files, layers, pieceLength, n);
    PlanLength(files, layers, pieceLength, n - 1);
    var before, last := PlanOf(files, layers, pieceLength, n - 1), FilePieces(n - 1, files[n - 1], layers, pieceLength);
    if i == n - 1 {
      PlanLength(files, layers, pieceLength, n);
      BackOf(before, last);
    } else {
      PlanHolds(files, layers, pieceLength, n - 1, i);
      SliceOfFront(before, last, FirstPiece(files, pieceLength, i), FirstPiece(files, pieceLength, i + 1));
    }
  }

  function TotalLength(pieces: seq<V2Piece>): nat {
    if pieces == [] then 0 else TotalLength(pieces[..|pieces| - 1]) + pieces[|pieces| - 1].length
  }

  /** Pieces that cover a file of `length` bytes: none empty, each beginning where those before it end, and all of the
      file covered at the end. */
  ghost predicate Tile(pieces: seq<V2Piece>, index: nat, length: nat) {
    && (forall n :: 0 <= n < |pieces| ==>
          pieces[n].file == index && pieces[n].length > 0 && pieces[n].offset == TotalLength(pieces[..n]))
    && TotalLength(pieces) == length
  }

  lemma FilePiecesTile(index: nat, file: V2File, layers: Layers, pieceLength: nat)
    requires pieceLength > 0 && CanPlan(file, layers, pieceLength) && Checked(file, layers, pieceLength)
    ensures Tile(FilePieces(index, file, layers, pieceLength), index, file.length)
    ensures |FilePieces(index, file, layers, pieceLength)| == PieceCount(file, pieceLength)
  {
    FilePiecesCount(index, file, layers, pieceLength);
    var pieces := FilePieces(index, file, layers, pieceLength);
    if file.root.Some? && file.length <= pieceLength {
      assert pieces[..0] == [];
    } else if file.root.Some? {
      LongFileTiles(index, file, layers[file.root.value], pieceLength);
    }
  }

  lemma LongFileTiles(index: nat, file: V2File, layer: seq<Digest>, pieceLength: nat)
    requires pieceLength > 0 && |layer| == CeilDiv(file.length, pieceLength)
    ensures Tile(LongFilePieces(index, file, layer, pieceLength), index, file.length)
  {
    var pieces := LongFilePieces(index, file, layer, pieceLength);
    CeilDivBounds(file.length, pieceLength);
    forall n | 0 <= n < |pieces|
      ensures pieces[n].file == index && pieces[n].length > 0 && pieces[n].offset == TotalLength(pieces[..n])
    {
      LongFilePieceAt(index, file, layer, pieceLength, n);
      LongFileTotal(index, file, layer, pieceLength, n);
    }
    LongFileTotal(index, file, layer, pieceLength, |pieces|);
    assert pieces[..|pieces|] == pieces;
  }

  lemma {:induction false} LongFileTotal(index: nat, file: V2File, layer: seq<Digest>, pieceLength: nat, n: nat)
    requires pieceLength > 0 && |layer| == CeilDiv(file.length, pieceLength) && n <= |layer|
    ensures TotalLength(LongFilePieces(index, file, layer, pieceLength)[..n]) == Min(n * pieceLength, file.length)
    decreases n
  {
    var pieces := LongFilePieces(index, file, layer, pieceLength);
    if n > 0 {
      assert pieces[..n][..n - 1] == pieces[..n - 1];
      LongFileTotal(index, file, layer, pieceLength, n - 1);
      LongFilePieceAt(index, file, layer, pieceLength, n - 1);
    }
  }

  lemma LongFilePieceAt(index: nat, file: V2File, layer: seq<Digest>, pieceLength: nat, n: nat)
    requires pieceLength > 0 && |layer| == CeilDiv(file.length, pieceLength) && n < |layer|
    ensures n * pieceLength < file.length
    ensures LongFilePieces(index, file, layer, pieceLength)[n] == LayerPiece(index, file, layer[n], n, pieceLength)
    ensures (n + 1) * pieceLength == n * pieceLength + pieceLength
  {
    ChunkStarts(file.length, pieceLength, n);
  }

  /** How high the tree is that a piece of a file is hashed over. */
  function PieceHeight(file: V2File, pieceLength: nat): nat
    requires ValidPieceLength(pieceLength)
  {
    if file.length <= pieceLength then TreeHeight(file.length) else PieceLayer(pieceLength)
  }

  /** No two collide of what is hashed to check the layers, to make the true layer, to check some bytes against a piece,
      and to make that piece. */
  ghost predicate PieceApart(h: Hasher, file: V2File, layers: Layers, pieceLength: nat, data: seq<byte>, n: nat,
                             bytes: seq<byte>, seen: set<Pair>, blocks: set<seq<byte>>)
    requires ValidPieceLength(pieceLength)
  {
    && (n * pieceLength < |data| ==> Apart(h, Chunk(data, pieceLength, n), PieceHeight(file, pieceLength), seen,
                                           blocks))
    && Apart(h, bytes, PieceHeight(file, pieceLength), seen, blocks)
    && (file.length > pieceLength && HasLayer(file, layers) ==>
      && LayerPairs(h, layers[file.root.value], pieceLength) <= seen
      && LayerPairs(h, TrueLayer(h, data, pieceLength), pieceLength) <= seen)
  }

  /** End to end: with the layers checked against true roots, the piece `n` of a file is accepted for exactly the bytes
      the file has there. */
  lemma PlannedPieceMatches(h: Hasher, index: nat, file: V2File, layers: Layers, pieceLength: nat, data: seq<byte>,
                            n: nat,
                            bytes: seq<byte>, seen: set<Pair>, blocks: set<seq<byte>>)
    requires ValidPieceLength(pieceLength)
    requires CanPlan(file, layers, pieceLength) && Checked(file, layers, pieceLength)
    requires LayersFit(h, [file], layers, pieceLength)
    requires |data| == file.length > 0 && file.root == Some(FileRoot(h, data))
    requires n < |FilePieces(index, file, layers, pieceLength)|
    requires PieceApart(h, file, layers, pieceLength, data, n, bytes, seen, blocks)
    ensures n * pieceLength < |data|
    ensures var piece := FilePieces(index, file, layers, pieceLength)[n];
      && piece.offset == n * pieceLength && piece.length == |Chunk(data, pieceLength, n)|
      && (Matches(h, bytes, piece.width, piece.root) <==> bytes == Chunk(data, pieceLength, n))
  {
    var piece := FilePieces(index, file, layers, pieceLength)[n];
    if file.length <= pieceLength {
      assert n == 0 && Chunk(data, pieceLength, 0) == data;
      var blocks := CeilDiv(|data|, BLOCK);
      NextPowerOfTwoLeast(blocks);
      CeilDivBounds(|data|, BLOCK);
    } else {
      var layer := layers[file.root.value];
      assert [file][0] == file;
      FittingLayerIsTrue(h, layer, data, pieceLength, seen);
      LongFilePieceAt(index, file, layer, pieceLength, n);
      PieceLengthForm(pieceLength);
      PieceNode(h, data, pieceLength, n);
    }
    assert Matches(h, Chunk(data, pieceLength, n), piece.width, piece.root);
    MatchesOnlyTheBytes(h, bytes, Chunk(data, pieceLength, n), piece.width, piece.root, seen, blocks);
  }

  // ---- install_layers --------------------------------------------------------

  datatype V2Meta = V2Meta(files: seq<V2File>, layers: Layers)

  /** The first 20 bytes of a root. */
  function FirstTwenty(root: Digest): seq<byte> {
    if |root.bytes| >= 20 then root.bytes[..20] else [0, 0, 0, 0, 0, 0, 0, 0, 0, 0, 0, 0, 0, 0, 0, 0, 0, 0, 0, 0]
  }

  function Shorts(pieces: seq<V2Piece>): seq<seq<byte>> {
    seq(|pieces|, i requires 0 <= i < |pieces| => FirstTwenty(pieces[i].root))
  }

  predicate FilesChecked(files: seq<V2File>) {
    forall i :: 0 <= i < |files| ==> (files[i].root.Some? <==> files[i].length > 0)
  }

  lemma FitMeansChecked(h: Hasher, files: seq<V2File>, layers: Layers, pieceLength: nat)
    requires ValidPieceLength(pieceLength) && FilesChecked(files) && LayersFit(h, files, layers, pieceLength)
    ensures AllChecked(files, layers, pieceLength)
  {
  }

  class TorrentFile {
    const h: Hasher
    const pieceLength: nat
    var v2: Option<V2Meta>
    var pieces: seq<seq<byte>>
    var v2Pieces: seq<V2Piece>

    /** What holds of every v2 torrent that was parsed: its layers fit, and a plan it has is the plan of its layers. */
    ghost predicate Valid()
      reads this
    {
      v2.Some? ==>
        && ValidPieceLength(pieceLength) && FilesChecked(v2.value.files)
        && LayersFit(h, v2.value.files, v2.value.layers, pieceLength)
        && (v2Pieces != [] ==> Planned())
    }

    ghost predicate Planned()
      requires v2.Some?
      reads this
    {
      var files := v2.value.files;
      && pieceLength > 0 && AllPlannable(files, v2.value.layers, pieceLength)
      && AllChecked(files, v2.value.layers, pieceLength)
      && files[..|files|] == files
      && v2Pieces == PlanOf(files, v2.value.layers, pieceLength, |files|)
      && pieces == Shorts(v2Pieces)
    }

    constructor (h: Hasher, pieceLength: nat, v2: Option<V2Meta>, pieces: seq<seq<byte>>)
      requires v2.Some? ==>
        && ValidPieceLength(pieceLength)
        && FilesChecked(v2.value.files)
        && LayersFit(h, v2.value.files, v2.value.layers, pieceLength)
      ensures Valid() && this.h == h && this.pieceLength == pieceLength && this.v2 == v2 && this.pieces == pieces
      ensures v2Pieces == []
    {
      this.h, this.pieceLength, this.v2, this.pieces, this.v2Pieces := h, pieceLength, v2, pieces, [];
    }

    /** Adds layers fetched from peers: all of them or, on an error, nothing. */
    method InstallLayers(layers: Layers) returns (error: Option<V2Error>)
      requires Valid()
      modifies this
      ensures Valid()
      ensures error.Some? ==> v2 == old(v2) && pieces == old(pieces) && v2Pieces == old(v2Pieces)
      ensures error.None? <==>
        && old(v2).Some?
        && LayersFit(h, old(v2).value.files, layers, pieceLength)
        && AllPlannable(old(v2).value.files, old(v2).value.layers + layers, pieceLength)
      ensures error.None? ==> v2 == Some(V2Meta(old(v2).value.files, old(v2).value.layers + layers)) && Planned()
    {
      if v2.None? {
        return Some(BadLayer);
      }
      var meta := v2.value;
      error := ValidateLayers(h, meta.files, layers, pieceLength);
      if error.Some? {
        return;
      }
      var combined := meta.layers + layers;
      assert LayersFit(h, meta.files, combined, pieceLength);
      FitMeansChecked(h, meta.files, combined, pieceLength);
      var plan := PlanPieces(meta.files, combined, pieceLength);
      if plan.None? {
        return Some(BadLayer);
      }
      assert meta.files[..|meta.files|] == meta.files;
      v2 := Some(V2Meta(meta.files, combined));
      pieces := Shorts(plan.value);
      v2Pieces := plan.value;
    }
  }
}
