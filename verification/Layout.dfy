/** Where the bytes of a torrent lie: pieces over files (src/webseed.rs, src/selection.rs) and the length of a piece
    (src/torrent.rs, src/seeder.rs). */
module Layout {
  import opened Numbers
  import opened Bytes
  import opened Urls

  datatype Target = Target(url: seq<byte>, start: nat, end: nat, padding: bool)

  datatype Request = Request(url: seq<byte>, offset: nat, length: nat)

  /** A stretch of one file. */
  datatype Segment = Segment(file: nat, offset: nat, length: nat)

  // ---- where files lie -------------------------------------------------------------

  /** Where file `i` starts: after all before it. */
  function Start(lengths: seq<nat>, i: nat): nat
    requires i <= |lengths|
  {
    if i == 0 then 0 else Start(lengths, i - 1) + lengths[i - 1]
  }

  function Whole(lengths: seq<nat>): nat {
    Start(lengths, |lengths|)
  }

  lemma {:induction false} StartMonotone(lengths: seq<nat>, i: nat, j: nat)
    requires i <= j <= |lengths|
    ensures Start(lengths, i) <= Start(lengths, j)
    decreases j
  {
    if i < j {
      StartMonotone(lengths, i, j - 1);
    }
  }

  /** Target `i` is file `i`. */
  ghost predicate LaidOut(targets: seq<Target>, lengths: seq<nat>) {
    && |targets| == |lengths|
    && forall i {:trigger targets[i]} :: 0 <= i < |targets| ==>
         targets[i].start == Start(lengths, i) && targets[i].end == Start(lengths, i + 1)
  }

  datatype File = File(path: seq<seq<byte>>, length: nat)

  function LengthsOf(files: seq<File>): (lengths: seq<nat>)
    ensures |lengths| == |files|
  {
    seq(|files|, i requires 0 <= i < |files| => files[i].length)
  }

  /** The targets of the first `n` files: each where its file is, and where that lies. */
  function TargetsOf(base: seq<byte>, name: seq<byte>, files: seq<File>, multi: bool, n: nat): (targets: seq<Target>)
    requires n <= |files|
    ensures |targets| == n
  {
    if n == 0 then []
    else
      TargetsOf(base, name, files, multi, n - 1)
      + [Target(FileUrl(base, name, files[n - 1].path, multi), Start(LengthsOf(files), n - 1),
                Start(LengthsOf(files), n), false)]
  }

  lemma {:induction false} TargetAt(base: seq<byte>, name: seq<byte>, files: seq<File>, multi: bool, n: nat, i: nat)
    requires i < n <= |files|
    ensures TargetsOf(base, name, files, multi, n)[i]
         == Target(FileUrl(base, name, files[i].path, multi), Start(LengthsOf(files), i),
                   Start(LengthsOf(files), i + 1), false)
    decreases n
  {
    if i < n - 1 {
      TargetAt(base, name, files, multi, n - 1, i);
    }
  }

  method BuildTargets(base: seq<byte>, name: seq<byte>, files: seq<File>, multi: bool) returns (targets: seq<Target>)
    ensures targets == TargetsOf(base, name, files, multi, |files|) && LaidOut(targets, LengthsOf(files))
  {
    targets := [];
    var cursor := 0;
    for i := 0 to |files|
      invariant cursor == Start(LengthsOf(files), i) && targets == TargetsOf(base, name, files, multi, i)
    {
      var url := BuildUrl(base, name, files[i].path, multi);
      targets := targets + [Target(url, cursor, cursor + files[i].length, false)];
      cursor := cursor + files[i].length;
    }
    TargetsLaidOut(base, name, files, multi);
  }

  lemma TargetsLaidOut(base: seq<byte>, name: seq<byte>, files: seq<File>, multi: bool)
    ensures LaidOut(TargetsOf(base, name, files, multi, |files|), LengthsOf(files))
  {
    var targets, lengths := TargetsOf(base, name, files, multi, |files|), LengthsOf(files);
    forall i {:trigger targets[i]} | 0 <= i < |targets|
      ensures targets[i].start == Start(lengths, i) && targets[i].end == Start(lengths, i + 1)
    {
      TargetAt(base, name, files, multi, |files|, i);
    }
  }

  method FileRanges(lengths: seq<nat>) returns (ranges: seq<(nat, nat)>)
    ensures |ranges| == |lengths|
    ensures forall i {:trigger ranges[i]} :: 0 <= i < |ranges| ==>
      ranges[i].0 == Start(lengths, i) && ranges[i].1 == Start(lengths, i + 1)
  {
    ranges := [];
    var cursor := 0;
    for i := 0 to |lengths|
      invariant |ranges| == i && cursor == Start(lengths, i)
      invariant forall k {:trigger ranges[k]} :: 0 <= k < |ranges| ==>
        ranges[k].0 == Start(lengths, k) && ranges[k].1 == Start(lengths, k + 1)
    {
      ranges := ranges + [(cursor, cursor + lengths[i])];
      cursor := cursor + lengths[i];
    }
  }

  // ---- a stretch over files --------------------------------------------------------

  /** Where the stretch from `a` to `b` overlaps file `i`. */
  function Overlap(lengths: seq<nat>, a: nat, b: nat, i: nat): Option<Segment>
    requires i < |lengths|
  {
    var lo, hi := Max(a, Start(lengths, i)), Min(b, Start(lengths, i + 1));
    if lo < hi then Some(Segment(i, lo - Start(lengths, i), hi - lo)) else None
  }

  /** The stretch from `a` to `b`, looked for in every file from `i` on. */
  function Scan(lengths: seq<nat>, a: nat, b: nat, i: nat): seq<Segment>
    requires i <= |lengths|
    decreases |lengths| - i
  {
    if i == |lengths| then []
    else
      var rest := Scan(lengths, a, b, i + 1);
      match Overlap(lengths, a, b, i)
      case Some(s) => [s] + rest
      case None => rest
  }

  /** The segments follow one another from `a` to `b`, none of them empty, each inside its file. */
  predicate Tiles(lengths: seq<nat>, segments: seq<Segment>, a: nat, b: nat) {
    if segments == [] then a == b
    else
      var s := segments[0];
      && s.file < |lengths| && s.length > 0 && s.offset + s.length <= lengths[s.file]
      && Start(lengths, s.file) + s.offset == a
      && Tiles(lengths, segments[1..], a + s.length, b)
  }

  lemma {:induction false} ScanTilesFrom(lengths: seq<nat>, a: nat, b: nat, i: nat)
    requires i <= |lengths| && a <= b <= Whole(lengths)
    ensures Tiles(lengths, Scan(lengths, a, b, i), Max(a, Min(b, Start(lengths, i))), b)
    decreases |lengths| - i
  {
    if i < |lengths| {
      ScanTilesFrom(lengths, a, b, i + 1);
      var rest := Scan(lengths, a, b, i + 1);
      match Overlap(lengths, a, b, i)
      case Some(s) =>
        assert ([s] + rest)[1..] == rest;
      case None =>
    }
  }

  /** The segments of a stretch of the torrent tile it. */
  lemma ScanTiles(lengths: seq<nat>, a: nat, b: nat)
    requires a <= b <= Whole(lengths)
    ensures Tiles(lengths, Scan(lengths, a, b, 0), a, b)
  {
    ScanTilesFrom(lengths, a, b, 0);
  }

  function TotalOf(segments: seq<Segment>): nat {
    if segments == [] then 0 else segments[0].length + TotalOf(segments[1..])
  }

  lemma {:induction false} TilesTotal(lengths: seq<nat>, segments: seq<Segment>, a: nat, b: nat)
    requires Tiles(lengths, segments, a, b)
    ensures a + TotalOf(segments) == b
    decreases |segments|
  {
    if segments != [] {
      TilesTotal(lengths, segments[1..], a + segments[0].length, b);
    }
  }

  /** A scan holds exactly the overlaps, in the order of the files. */
  lemma {:induction false} ScanHolds(lengths: seq<nat>, a: nat, b: nat, i: nat)
    requires i <= |lengths|
    ensures forall k :: 0 <= k < |Scan(lengths, a, b, i)| ==> OverlapIs(lengths, a, b, i, Scan(lengths, a, b, i)[k])
    ensures forall k, m :: 0 <= k < m < |Scan(lengths, a, b, i)| ==>
      Scan(lengths, a, b, i)[k].file < Scan(lengths, a, b, i)[m].file
    decreases |lengths| - i
  {
    if i < |lengths| {
      ScanHolds(lengths, a, b, i + 1);
      var rest := Scan(lengths, a, b, i + 1);
      forall k | 0 <= k < |rest|
        ensures OverlapIs(lengths, a, b, i, rest[k]) && rest[k].file > i
      {
        assert OverlapIs(lengths, a, b, i + 1, rest[k]);
      }
    }
  }

  predicate OverlapIs(lengths: seq<nat>, a: nat, b: nat, from: nat, s: Segment) {
    from <= s.file < |lengths| && Overlap(lengths, a, b, s.file) == Some(s)
  }

  lemma {:induction false} ScanFinds(lengths: seq<nat>, a: nat, b: nat, i: nat, f: nat) returns (k: nat)
    requires i <= f < |lengths| && Overlap(lengths, a, b, f).Some?
    ensures k < |Scan(lengths, a, b, i)| && Scan(lengths, a, b, i)[k] == Overlap(lengths, a, b, f).value
    decreases f - i
  {
    if i == f {
      k := 0;
    } else {
      k := ScanFinds(lengths, a, b, i + 1, f);
      if Overlap(lengths, a, b, i).Some? {
        k := k + 1;
      }
    }
  }

  // ---- piece_requests --------------------------------------------------------------

  /** What is asked for a segment: the padding of BEP 47 has no URL. */
  function ToRequest(targets: seq<Target>, s: Segment): Request
    requires s.file < |targets|
  {
    Request(if targets[s.file].padding then [] else targets[s.file].url, s.offset, s.length)
  }

  ghost predicate Asks(targets: seq<Target>, requests: seq<Request>, segments: seq<Segment>) {
    && |requests| == |segments|
    && forall k :: 0 <= k < |segments| ==>
         segments[k].file < |targets| && requests[k] == ToRequest(targets, segments[k])
  }

  /** The first target that ends after `at`, by binary search. */
  method PartitionPoint(targets: seq<Target>, at: nat, ghost lengths: seq<nat>) returns (first: nat)
    requires LaidOut(targets, lengths)
    ensures first <= |targets|
    ensures forall i :: 0 <= i < first ==> targets[i].end <= at
    ensures forall i :: first <= i < |targets| ==> targets[i].end > at
  {
    var hi := |targets|;
    first := 0;
    while first < hi
      invariant first <= hi <= |targets|
      invariant forall i :: 0 <= i < first ==> targets[i].end <= at
      invariant forall i :: hi <= i < |targets| ==> targets[i].end > at
    {
      var mid := (first + hi) / 2;
      if targets[mid].end <= at {
        forall i | 0 <= i <= mid
          ensures targets[i].end <= at
        {
          StartMonotone(lengths, i + 1, mid + 1);
        }
        first := mid + 1;
      } else {
        forall i | mid <= i < |targets|
          ensures targets[i].end > at
        {
          StartMonotone(lengths, mid + 1, i + 1);
        }
        hi := mid;
      }
    }
  }

  lemma {:induction false} SkipBefore(lengths: seq<nat>, a: nat, b: nat, i: nat)
    requires i <= |lengths| && Start(lengths, i) <= a
    ensures Scan(lengths, a, b, 0) == Scan(lengths, a, b, i)
    decreases i
  {
    if i > 0 {
      SkipBefore(lengths, a, b, i - 1);
    }
  }

  lemma {:induction false} SkipAfter(lengths: seq<nat>, a: nat, b: nat, i: nat)
    requires i <= |lengths| && b <= Start(lengths, i)
    ensures Scan(lengths, a, b, i) == []
    decreases |lengths| - i
  {
    if i < |lengths| {
      SkipAfter(lengths, a, b, i + 1);
    }
  }

  /** The binary search and the early stop leave nothing out: the requests are those of the plain scan of every file. */
  method PieceRequests(targets: seq<Target>, index: nat, pieceLength: nat, total: nat, ghost lengths: seq<nat>)
    returns (requests: seq<Request>)
    requires LaidOut(targets, lengths)
    ensures Asks(targets, requests,
                 Scan(lengths, index * pieceLength, Min(index * pieceLength + pieceLength, total), 0))
  {
    var a := index * pieceLength;
    var b := Min(a + pieceLength, total);
    requests := Overlapping(targets, a, b, lengths);
  }

  method Overlapping(targets: seq<Target>, a: nat, b: nat, ghost lengths: seq<nat>) returns (requests: seq<Request>)
    requires LaidOut(targets, lengths)
    ensures Asks(targets, requests, Scan(lengths, a, b, 0))
  {
    var i := PartitionPoint(targets, a, lengths);
    assert Start(lengths, i) <= a by {
      if i > 0 { assert targets[i - 1].end <= a; }
    }
    SkipBefore(lengths, a, b, i);
    ghost var done := [];
    requests := [];
    while i < |targets| && targets[i].start < b
      invariant i <= |targets| && done + Scan(lengths, a, b, i) == Scan(lengths, a, b, 0)
      invariant Asks(targets, requests, done)
    {
      requests := AddOverlap(targets, requests, i, a, b, lengths, done);
      ScanOne(lengths, a, b, i, done);
      done := done + OverlapOf(lengths, a, b, i);
      i := i + 1;
    }
    assert Scan(lengths, a, b, i) == [] by {
      if i < |targets| {
        SkipAfter(lengths, a, b, i);
      }
    }
    assert done + [] == done;
  }

  /** The overlap with file `i`, if any, as a list. */
  function OverlapOf(lengths: seq<nat>, a: nat, b: nat, i: nat): seq<Segment>
    requires i < |lengths|
  {
    match Overlap(lengths, a, b, i)
    case Some(s) => [s]
    case None => []
  }

  lemma ScanOne(lengths: seq<nat>, a: nat, b: nat, i: nat, done: seq<Segment>)
    requires i < |lengths|
    ensures done + Scan(lengths, a, b, i) == done + OverlapOf(lengths, a, b, i) + Scan(lengths, a, b, i + 1)
  {
    assert Scan(lengths, a, b, i) == OverlapOf(lengths, a, b, i) + Scan(lengths, a, b, i + 1);
  }

  /** One target of the walk: what of the stretch is in it, if anything, is asked for. */
  method AddOverlap(targets: seq<Target>, requests: seq<Request>, i: nat, a: nat, b: nat,
                    ghost lengths: seq<nat>, ghost done: seq<Segment>) returns (more: seq<Request>)
    requires LaidOut(targets, lengths) && i < |targets| && Asks(targets, requests, done)
    ensures Asks(targets, more, done + OverlapOf(lengths, a, b, i))
  {
    var t := targets[i];
    var lo, hi := Max(a, t.start), Min(b, t.end);
    more := requests;
    if lo < hi {
      more := more + [Request(if t.padding then [] else t.url, lo - t.start, hi - lo)];
    }
  }

  // ---- every byte once -------------------------------------------------------------

  /** The segments of piece `p`. */
  function PieceSegments(lengths: seq<nat>, pieceLength: nat, p: nat): seq<Segment> {
    Scan(lengths, p * pieceLength, Min(p * pieceLength + pieceLength, Whole(lengths)), 0)
  }

  predicate Has(s: Segment, f: nat, offset: nat) {
    s.file == f && s.offset <= offset < s.offset + s.length
  }

  lemma InFile(lengths: seq<nat>, a: nat, b: nat, s: Segment, f: nat, offset: nat)
    requires OverlapIs(lengths, a, b, 0, s) && Has(s, f, offset)
    ensures a <= Start(lengths, f) + offset < b
  {
  }

  lemma ByteFound(lengths: seq<nat>, a: nat, b: nat, f: nat, offset: nat) returns (k: nat)
    requires f < |lengths| && offset < lengths[f] && a <= Start(lengths, f) + offset < b
    ensures k < |Scan(lengths, a, b, 0)| && Has(Scan(lengths, a, b, 0)[k], f, offset)
  {
    k := ScanFinds(lengths, a, b, 0, f);
  }

  /** The piece a byte of the torrent is in. */
  lemma HomePiece(at: nat, pieceLength: nat, p: nat)
    requires pieceLength > 0
    ensures p * pieceLength <= at < p * pieceLength + pieceLength <==> p == at / pieceLength
  {
    var q := at / pieceLength;
    assert at == q * pieceLength + at % pieceLength;
    if p * pieceLength <= at < p * pieceLength + pieceLength {
      DivisionForm(at, pieceLength, p, at - p * pieceLength);
    }
  }

  /** Over all pieces, every byte of every file is requested exactly once. */
  lemma EveryByteOnce(lengths: seq<nat>, pieceLength: nat, f: nat, offset: nat) returns (home: nat, k: nat)
    requires pieceLength > 0 && f < |lengths| && offset < lengths[f]
    ensures k < |PieceSegments(lengths, pieceLength, home)|
    ensures Has(PieceSegments(lengths, pieceLength, home)[k], f, offset)
    ensures forall p: nat, m: nat ::
      m < |PieceSegments(lengths, pieceLength, p)| && Has(PieceSegments(lengths, pieceLength, p)[m], f, offset) ==>
        p == home && m == k
  {
    var at := Start(lengths, f) + offset;
    home := at / pieceLength;
    HomePiece(at, pieceLength, home);
    StartMonotone(lengths, f + 1, |lengths|);
    k := ByteFound(lengths, home * pieceLength, Min(home * pieceLength + pieceLength, Whole(lengths)), f, offset);
    forall p: nat, m: nat |
        m < |PieceSegments(lengths, pieceLength, p)| && Has(PieceSegments(lengths, pieceLength, p)[m], f, offset)
      ensures p == home && m == k
    {
      OnlyThere(lengths, pieceLength, f, offset, p, m);
      OneSegment(lengths, pieceLength, home, m, k);
    }
  }

  lemma OnlyThere(lengths: seq<nat>, pieceLength: nat, f: nat, offset: nat, p: nat, m: nat)
    requires pieceLength > 0 && f < |lengths|
    requires m < |PieceSegments(lengths, pieceLength, p)| && Has(PieceSegments(lengths, pieceLength, p)[m], f, offset)
    ensures p == (Start(lengths, f) + offset) / pieceLength
  {
    var a := p * pieceLength;
    var b := Min(a + pieceLength, Whole(lengths));
    ScanHolds(lengths, a, b, 0);
    InFile(lengths, a, b, Scan(lengths, a, b, 0)[m], f, offset);
    HomePiece(Start(lengths, f) + offset, pieceLength, p);
  }

  lemma OneSegment(lengths: seq<nat>, pieceLength: nat, p: nat, m: nat, k: nat)
    requires m < |PieceSegments(lengths, pieceLength, p)| && k < |PieceSegments(lengths, pieceLength, p)|
    requires PieceSegments(lengths, pieceLength, p)[m].file == PieceSegments(lengths, pieceLength, p)[k].file
    ensures m == k
  {
    ScanHolds(lengths, p * pieceLength, Min(p * pieceLength + pieceLength, Whole(lengths)), 0);
  }

  // ---- the length of a piece -------------------------------------------------------

  /** `TorrentFile::piece_len` of a v1 torrent; the source's subtraction is of unsigned numbers and must not go below
      zero. */
  function TorrentPieceLen(total: nat, pieceLength: nat, pieces: nat, index: nat): int {
    var last := Max(pieces - 1, 0);
    if index == last then total - pieceLength * last else pieceLength
  }

  /** `SeederShared::piece_len` of a v1 torrent. */
  function SeederPieceLen(total: nat, pieceLength: nat, index: nat): nat {
    Min(pieceLength, Max(total - index * pieceLength, 0))
  }

  function SumOfPieces(total: nat, pieceLength: nat, pieces: nat, n: nat): int {
    if n == 0 then 0
    else SumOfPieces(total, pieceLength, pieces, n - 1) + TorrentPieceLen(total, pieceLength, pieces, n - 1)
  }

  lemma {:induction false} SumOfFirst(total: nat, pieceLength: nat, pieces: nat, n: nat)
    requires n <= pieces
    ensures SumOfPieces(total, pieceLength, pieces, n) == if n < pieces || n == 0 then n * pieceLength else total
    decreases n
  {
    if n > 0 {
      SumOfFirst(total, pieceLength, pieces, n - 1);
      assert (n - 1) * pieceLength + pieceLength == n * pieceLength;
    }
  }

  /** The lengths make sense: each is positive and at most a whole piece, and they sum to the total. */
  ghost predicate Sensible(total: nat, pieceLength: nat, pieces: nat) {
    && (forall i: nat :: i < pieces ==> 0 < TorrentPieceLen(total, pieceLength, pieces, i) <= pieceLength)
    && SumOfPieces(total, pieceLength, pieces, pieces) == total
  }

  /** The parser's check of the piece count is what the lengths need, no more and no less. */
  lemma PieceCountExact(total: nat, pieceLength: nat, pieces: nat)
    requires pieceLength > 0
    ensures pieces == CeilDiv(total, pieceLength) <==> Sensible(total, pieceLength, pieces)
  {
    SumOfFirst(total, pieceLength, pieces, pieces);
    if pieces == CeilDiv(total, pieceLength) {
      CeilDivBounds(total, pieceLength);
      if pieces > 0 {
        assert pieceLength * (pieces - 1) == pieces * pieceLength - pieceLength;
      }
    }
    if Sensible(total, pieceLength, pieces) {
      if pieces > 0 {
        assert 0 < TorrentPieceLen(total, pieceLength, pieces, pieces - 1) <= pieceLength;
        assert pieceLength * (pieces - 1) == pieces * pieceLength - pieceLength;
      }
      CeilDivUnique(total, pieceLength, pieces);
    }
  }

  /** Where the count is right the two formulas agree exactly at the indices there are, and at index 0 of an empty
      torrent; past the end one says a whole piece and the other nothing. */
  lemma PieceLensAgree(total: nat, pieceLength: nat, pieces: nat, index: nat)
    requires pieceLength > 0 && pieces == CeilDiv(total, pieceLength)
    ensures TorrentPieceLen(total, pieceLength, pieces, index) == SeederPieceLen(total, pieceLength, index)
       <==> index < Max(1, pieces)
  {
    CeilDivBounds(total, pieceLength);
    if index < pieces - 1 {
      MulMono(index + 1, pieces - 1, pieceLength);
      assert (index + 1) * pieceLength == index * pieceLength + pieceLength;
    } else if index >= pieces {
      MulMono(pieces, index, pieceLength);
    } else {
      assert pieceLength * index == index * pieceLength;
      assert (index + 1) * pieceLength == index * pieceLength + pieceLength;
    }
  }

  /** The formulas part past the end: of 5 bytes in pieces of 4, piece 2 is a whole piece by one and nothing by the
      other. */
  lemma PieceLensDiffer()
    ensures CeilDiv(5, 4) == 2 && TorrentPieceLen(5, 4, 2, 2) == 4 && SeederPieceLen(5, 4, 2) == 0
  {
  }

  /** A piece is as long as its segments together. */
  lemma PieceIsItsSegments(lengths: seq<nat>, pieceLength: nat, p: nat)
    ensures TotalOf(PieceSegments(lengths, pieceLength, p)) == SeederPieceLen(Whole(lengths), pieceLength, p)
  {
    var a := p * pieceLength;
    var b := Min(a + pieceLength, Whole(lengths));
    if a <= b {
      ScanTiles(lengths, a, b);
      TilesTotal(lengths, Scan(lengths, a, b, 0), a, b);
    } else {
      NothingPast(lengths, a, b, 0);
    }
  }

  lemma {:induction false} NothingPast(lengths: seq<nat>, a: nat, b: nat, i: nat)
    requires i <= |lengths| && b <= a
    ensures Scan(lengths, a, b, i) == []
    decreases |lengths| - i
  {
    if i < |lengths| {
      NothingPast(lengths, a, b, i + 1);
    }
  }

  // ---- selected_pieces -------------------------------------------------------------

  predicate Selected(mask: seq<bool>, f: nat) {
    f < |mask| && mask[f]
  }

  /** File `f` is not empty and piece `p` is from its first to its last. */
  predicate Touches(lengths: seq<nat>, pieceLength: nat, f: nat, p: nat)
    requires f < |lengths| && pieceLength > 0
  {
    lengths[f] > 0 && Start(lengths, f) / pieceLength <= p <= (Start(lengths, f + 1) - 1) / pieceLength
  }

  lemma TouchesIsOverlap(lengths: seq<nat>, pieceLength: nat, f: nat, p: nat)
    requires f < |lengths| && pieceLength > 0
    ensures Touches(lengths, pieceLength, f, p)
       <==> Overlap(lengths, p * pieceLength, Min(p * pieceLength + pieceLength, Whole(lengths)), f).Some?
  {
    StartMonotone(lengths, f + 1, |lengths|);
    if lengths[f] > 0 {
      AtLeast(Start(lengths, f), pieceLength, p);
      AtMost(Start(lengths, f + 1) - 1, pieceLength, p);
    }
  }

  lemma AtLeast(at: nat, pieceLength: nat, p: nat)
    requires pieceLength > 0
    ensures at / pieceLength <= p <==> at < p * pieceLength + pieceLength
  {
    var q := at / pieceLength;
    assert at == q * pieceLength + at % pieceLength;
    if q <= p {
      MulMono(q, p, pieceLength);
    } else {
      MulMono(p + 1, q, pieceLength);
      assert (p + 1) * pieceLength == p * pieceLength + pieceLength;
    }
  }

  lemma AtMost(at: nat, pieceLength: nat, p: nat)
    requires pieceLength > 0
    ensures p <= at / pieceLength <==> p * pieceLength <= at
  {
    var q := at / pieceLength;
    assert at == q * pieceLength + at % pieceLength;
    if p <= q {
      MulMono(p, q, pieceLength);
    } else {
      MulMono(q + 1, p, pieceLength);
      assert (q + 1) * pieceLength == q * pieceLength + pieceLength;
    }
  }

  /** One of the segments of piece `p` is of a selected file. */
  ghost predicate Wanted(lengths: seq<nat>, pieceLength: nat, mask: seq<bool>, p: nat) {
    exists k ::
      && 0 <= k < |PieceSegments(lengths, pieceLength, p)|
      && Selected(mask, PieceSegments(lengths, pieceLength, p)[k].file)
  }

  /** One of the first `n` files is selected and touches piece `p`. */
  ghost predicate Touched(lengths: seq<nat>, pieceLength: nat, mask: seq<bool>, n: nat, p: nat)
    requires n <= |lengths| && pieceLength > 0
  {
    exists f: nat :: f < n && Selected(mask, f) && Touches(lengths, pieceLength, f, p)
  }

  lemma TouchedIsWanted(lengths: seq<nat>, pieceLength: nat, mask: seq<bool>, p: nat)
    requires pieceLength > 0
    ensures Touched(lengths, pieceLength, mask, |lengths|, p) <==> Wanted(lengths, pieceLength, mask, p)
  {
    var a := p * pieceLength;
    var b := Min(a + pieceLength, Whole(lengths));
    var segments := PieceSegments(lengths, pieceLength, p);
    if Touched(lengths, pieceLength, mask, |lengths|, p) {
      var f: nat :| f < |lengths| && Selected(mask, f) && Touches(lengths, pieceLength, f, p);
      TouchesIsOverlap(lengths, pieceLength, f, p);
      var k := ScanFinds(lengths, a, b, 0, f);
      assert Selected(mask, segments[k].file);
    }
    if Wanted(lengths, pieceLength, mask, p) {
      var k :| 0 <= k < |segments| && Selected(mask, segments[k].file);
      ScanHolds(lengths, a, b, 0);
      assert OverlapIs(lengths, a, b, 0, segments[k]);
      TouchesIsOverlap(lengths, pieceLength, segments[k].file, p);
    }
  }

  /** The lengths of those of the first `n` pieces that are in the set, together. */
  function SumOver(total: nat, pieceLength: nat, pieces: set<nat>, n: nat): nat {
    if n == 0 then 0
    else
      SumOver(total, pieceLength, pieces, n - 1)
      + if n - 1 in pieces then SeederPieceLen(total, pieceLength, n - 1) else 0
  }

  lemma {:induction false} SumWith(total: nat, pieceLength: nat, pieces: set<nat>, p: nat, n: nat)
    requires p !in pieces
    ensures SumOver(total, pieceLength, pieces + {p}, n)
         == SumOver(total, pieceLength, pieces, n) + if p < n then SeederPieceLen(total, pieceLength, p) else 0
    decreases n
  {
    if n > 0 {
      SumWith(total, pieceLength, pieces, p, n - 1);
    }
  }

  lemma {:induction false} SumOfNone(total: nat, pieceLength: nat, n: nat)
    ensures SumOver(total, pieceLength, {}, n) == 0
    decreases n
  {
    if n > 0 {
      SumOfNone(total, pieceLength, n - 1);
    }
  }

  lemma TouchedIsPiece(lengths: seq<nat>, pieceLength: nat, mask: seq<bool>, p: nat)
    requires pieceLength > 0 && Touched(lengths, pieceLength, mask, |lengths|, p)
    ensures p < CeilDiv(Whole(lengths), pieceLength)
  {
    var f: nat :| f < |lengths| && Selected(mask, f) && Touches(lengths, pieceLength, f, p);
    StartMonotone(lengths, f + 1, |lengths|);
    AtMost(Start(lengths, f + 1) - 1, pieceLength, p);
    var n := CeilDiv(Whole(lengths), pieceLength);
    CeilDivBounds(Whole(lengths), pieceLength);
    if n <= p {
      MulMono(n, p, pieceLength);
    }
  }

  /** The pieces that hold something of a selected file, and how many bytes they are together. */
  method SelectedPieces(lengths: seq<nat>, pieceLength: nat, mask: seq<bool>) returns (pieces: set<nat>, bytes: nat)
    requires pieceLength > 0
    ensures forall p: nat :: p in pieces <==> Wanted(lengths, pieceLength, mask, p)
    ensures forall p: nat :: p in pieces ==> p < CeilDiv(Whole(lengths), pieceLength)
    ensures bytes == SumOver(Whole(lengths), pieceLength, pieces, CeilDiv(Whole(lengths), pieceLength))
  {
    pieces := TouchedPieces(lengths, pieceLength, mask);
    ghost var n := CeilDiv(Whole(lengths), pieceLength);
    forall p: nat
      ensures p in pieces <==> Wanted(lengths, pieceLength, mask, p)
      ensures p in pieces ==> p < n
    {
      TouchedIsWanted(lengths, pieceLength, mask, p);
      if p in pieces {
        TouchedIsPiece(lengths, pieceLength, mask, p);
      }
    }
    var total := TotalLen(lengths);
    bytes := BytesOf(total, pieceLength, pieces, n);
  }

  method TotalLen(lengths: seq<nat>) returns (total: nat)
    ensures total == Whole(lengths)
  {
    total := 0;
    for i := 0 to |lengths|
      invariant total == Start(lengths, i)
    {
      total := total + lengths[i];
    }
  }

  method TouchedPieces(lengths: seq<nat>, pieceLength: nat, mask: seq<bool>) returns (pieces: set<nat>)
    requires pieceLength > 0
    ensures forall p: nat :: p in pieces <==> Touched(lengths, pieceLength, mask, |lengths|, p)
  {
    var ranges := FileRanges(lengths);
    pieces := {};
    for f := 0 to |ranges|
      invariant forall p: nat :: p in pieces <==> Touched(lengths, pieceLength, mask, f, p)
    {
      ghost var before := pieces;
      assert ranges[f].0 == Start(lengths, f) && ranges[f].1 == Start(lengths, f + 1);
      if f < |mask| && mask[f] && ranges[f].0 != ranges[f].1 {
        pieces := AddRange(pieces, ranges[f].0 / pieceLength, (ranges[f].1 - 1) / pieceLength);
      }
      forall p: nat
        ensures p in pieces <==> Touched(lengths, pieceLength, mask, f + 1, p)
      {
        TouchedNext(lengths, pieceLength, mask, f, p);
        assert p in before <==> Touched(lengths, pieceLength, mask, f, p);
      }
    }
  }

  lemma TouchedNext(lengths: seq<nat>, pieceLength: nat, mask: seq<bool>, f: nat, p: nat)
    requires f < |lengths| && pieceLength > 0
    ensures Touched(lengths, pieceLength, mask, f + 1, p)
       <==> Touched(lengths, pieceLength, mask, f, p) || (Selected(mask, f) && Touches(lengths, pieceLength, f, p))
  {
  }

  method AddRange(pieces: set<nat>, first: nat, last: nat) returns (more: set<nat>)
    ensures forall p: nat :: p in more <==> p in pieces || first <= p <= last
  {
    more := pieces;
    var p := first;
    while p <= last
      invariant p == first || first < p <= last + 1
      invariant forall q: nat :: q in more <==> q in pieces || first <= q < p
    {
      more := more + {p};
      p := p + 1;
    }
  }

  method BytesOf(total: nat, pieceLength: nat, pieces: set<nat>, ghost n: nat) returns (bytes: nat)
    requires forall p: nat :: p in pieces ==> p < n
    ensures bytes == SumOver(total, pieceLength, pieces, n)
  {
    bytes := 0;
    var left := pieces;
    SumOfNone(total, pieceLength, n);
    assert pieces - left == {};
    while left != {}
      invariant left <= pieces && bytes == SumOver(total, pieceLength, pieces - left, n)
      decreases left
    {
      var p :| p in left;
      SumWith(total, pieceLength, pieces - left, p, n);
      assert pieces - (left - {p}) == pieces - left + {p};
      var s := p * pieceLength;
      var e := Min(s + pieceLength, total);
      bytes := bytes + Max(e - s, 0);
      left := left - {p};
    }
    assert pieces - left == pieces;
  }

  /** Selecting every piece selects every byte. */
  lemma SelectingAll(total: nat, pieceLength: nat, pieces: set<nat>)
    requires pieceLength > 0 && forall p: nat :: p < CeilDiv(total, pieceLength) ==> p in pieces
    ensures SumOver(total, pieceLength, pieces, CeilDiv(total, pieceLength)) == total
  {
    var n := CeilDiv(total, pieceLength);
    SumOverAll(total, pieceLength, pieces, n, n);
    PieceCountExact(total, pieceLength, n);
  }

  lemma {:induction false} SumOverAll(total: nat, pieceLength: nat, pieces: set<nat>, count: nat, n: nat)
    requires pieceLength > 0 && count == CeilDiv(total, pieceLength) && n <= count
    requires forall p: nat :: p < count ==> p in pieces
    ensures SumOver(total, pieceLength, pieces, n) == SumOfPieces(total, pieceLength, count, n)
    decreases n
  {
    if n > 0 {
      SumOverAll(total, pieceLength, pieces, count, n - 1);
      PieceLensAgree(total, pieceLength, count, n - 1);
    }
  }
}
